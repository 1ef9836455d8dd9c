/** Which insertion a decision reaches, when ids may be registered again and again. */
module ApprovalDecisions {
  import opened Wrappers
  import opened ApprovalTable
  import opened ApprovalRaces
  import opened ApprovalRaceTheorems

  // ---- the newest insertion under an id -----------------------------------------------------

  /** The insertion in the table is the newest under its id. */
  ghost predicate NewestInTable(s: State) {
    forall id | id in s.table ::
      s.table[id].token < |s.inserted| && s.inserted[s.table[id].token] == (id, s.table[id].expiresAt)
      && NoneUnder(s, id, s.table[id].token + 1)
  }

  /** No insertion from token `from` on is under `id`. */
  ghost predicate NoneUnder(s: State, id: Id, from: nat) {
    forall k | from <= k < |s.inserted| :: s.inserted[k].0 != id
  }

  lemma InsertKeepsNewest(s: State, t: Tid, id: Id, at: Instant)
    requires NewestInTable(s)
    ensures NewestInTable(Insert(s, t, id, at))
  {
    var s' := Insert(s, t, id, at);
    assert s'.inserted[|s.inserted|] == (id, at);
    forall i | i in s'.table && i != id
      ensures s'.inserted[s'.table[i].token] == (i, s'.table[i].expiresAt) && NoneUnder(s', i, s'.table[i].token + 1)
    {
      assert i in s.table && NoneUnder(s, i, s.table[i].token + 1);
    }
  }

  /** Any other step inserts nothing and leaves the entries as they are, or fewer of them. */
  lemma OthersInsertNothing(s: State, step: Step)
    requires !(step.Advance? && step.tid in s.threads && s.threads[step.tid].RegisterInsert?)
    ensures var s' := Next(s, step);
            s'.inserted == s.inserted && forall id | id in s'.table :: id in s.table && s'.table[id] == s.table[id]
  {
  }

  lemma NextKeepsNewest(s: State, step: Step)
    requires NewestInTable(s)
    ensures NewestInTable(Next(s, step))
  {
    if step.Advance? && step.tid in s.threads && s.threads[step.tid].RegisterInsert? {
      InsertKeepsNewest(s, step.tid, s.threads[step.tid].id, s.threads[step.tid].expiresAt);
    } else {
      OthersInsertNothing(s, step);
    }
  }

  lemma {:induction false} ReachableNewest(cap: Option<nat>, steps: seq<Step>)
    ensures NewestInTable(Run(cap, steps))
    decreases |steps|
  {
    if steps != [] {
      ReachableNewest(cap, steps[..|steps| - 1]);
      NextKeepsNewest(Run(cap, steps[..|steps| - 1]), steps[|steps| - 1]);
    }
  }

  lemma {:induction false} RecordsGrow(cap: Option<nat>, a: seq<Step>, b: seq<Step>)
    ensures Run(cap, a).inserted <= Run(cap, a + b).inserted && Run(cap, a).log <= Run(cap, a + b).log
    decreases |b|
  {
    if b == [] {
      assert a + b == a;
    } else {
      var n := |b| - 1;
      assert a + b == (a + b[..n]) + [b[n]];
      RecordsGrow(cap, a, b[..n]);
      RunMore(cap, a + b[..n], b[n]);
      NextExtends(Run(cap, a + b[..n]), b[n]);
    }
  }

  lemma SameEntryExactly(s: State, s': State, id: Id)
    requires NewestInTable(s) && NewestInTable(s') && s.inserted <= s'.inserted && id in s.table && id in s'.table
    ensures s'.table[id] == s.table[id] <==> NoneUnder(s', id, |s.inserted|)
  {
    var t, t' := s.table[id].token, s'.table[id].token;
    assert s'.inserted[t] == s.inserted[t];
    if t' < |s.inserted| {
      assert s.inserted[t'] == s'.inserted[t'];
    }
  }

  /** Over any stretch of a run, an id that is in the table before and after holds the same insertion exactly if none was made under it. */
  lemma SameInsertionExactly(cap: Option<nat>, a: seq<Step>, b: seq<Step>, id: Id)
    requires id in Run(cap, a).table && id in Run(cap, a + b).table
    ensures Run(cap, a + b).table[id] == Run(cap, a).table[id]
            <==> forall k | |Run(cap, a).inserted| <= k < |Run(cap, a + b).inserted| :: Run(cap, a + b).inserted[k].0 != id
  {
    ReachableNewest(cap, a);
    ReachableNewest(cap, a + b);
    RecordsGrow(cap, a, b);
    SameEntryExactly(Run(cap, a), Run(cap, a + b), id);
  }

  // ---- the peek and the removal behind a decision -------------------------------------------

  /** At step `p` the call peeks successfully. */
  ghost predicate PeeksAt(cap: Option<nat>, steps: seq<Step>, p: nat, tid: Tid, id: Id, d: Decision) {
    && p < |steps| && steps[p] == Advance(tid)
    && var s := Run(cap, steps[..p]);
       tid in s.threads && s.threads[tid] == DecidePeek(id, d) && id in s.table && s.clock <= s.table[id].expiresAt
  }

  /** At step `q` the call removes `entry`. */
  ghost predicate RemovesAt(cap: Option<nat>, steps: seq<Step>, q: nat, tid: Tid, id: Id, d: Decision, entry: Stored) {
    && q < |steps| && steps[q] == Advance(tid)
    && var s := Run(cap, steps[..q]);
       tid in s.threads && s.threads[tid] == DecideRemove(id, d) && id in s.table && s.table[id] == entry
  }

  lemma DeciderAdvances(s: State, tid: Tid)
    requires tid in s.threads && AdvanceThread(s, tid).threads[tid] != s.threads[tid]
    ensures var pc, was := AdvanceThread(s, tid).threads[tid], s.threads[tid];
            && (pc.DecideRemove? ==>
                  was == DecidePeek(pc.id, pc.decision) && pc.id in s.table && s.clock <= s.table[pc.id].expiresAt)
            && (pc.DecideSend? ==> was == DecideRemove(pc.id, pc.decision) && pc.id in s.table && s.table[pc.id] == pc.entry)
  {
  }

  lemma DeciderStarts(s: State, step: Step, tid: Tid)
    requires tid in Next(s, step).threads && !(tid in s.threads && Next(s, step).threads[tid] == s.threads[tid])
    ensures var pc := Next(s, step).threads[tid];
            pc.DecidePeek? ==> step == CallDecide(tid, pc.id, pc.decision) && tid !in s.threads
  {
    NextExtends(s, step);
  }

  /** The call behind a decider that is about to peek. */
  lemma {:induction false} CallBehind(cap: Option<nat>, steps: seq<Step>, tid: Tid) returns (c: nat)
    requires tid in Run(cap, steps).threads && Run(cap, steps).threads[tid].DecidePeek?
    ensures var pc := Run(cap, steps).threads[tid]; c < |steps| && steps[c] == CallDecide(tid, pc.id, pc.decision)
    decreases |steps|
  {
    var n := |steps| - 1;
    var s := Run(cap, steps[..n]);
    if tid in s.threads && Run(cap, steps).threads[tid] == s.threads[tid] {
      c := CallBehind(cap, steps[..n], tid);
    } else {
      DeciderStarts(s, steps[n], tid);
      c := n;
    }
  }

  /** A call past its peek, or past its removal, moves only by its own step. */
  lemma DecidersMoveThemselves(s: State, step: Step, tid: Tid)
    requires tid in Next(s, step).threads && !(tid in s.threads && Next(s, step).threads[tid] == s.threads[tid])
    ensures var pc := Next(s, step).threads[tid];
            && (pc.DecideRemove? ==>
                  step == Advance(tid) && tid in s.threads && s.threads[tid] == DecidePeek(pc.id, pc.decision)
                  && pc.id in s.table && s.clock <= s.table[pc.id].expiresAt)
            && (pc.DecideSend? ==>
                  step == Advance(tid) && tid in s.threads && s.threads[tid] == DecideRemove(pc.id, pc.decision)
                  && pc.id in s.table && s.table[pc.id] == pc.entry)
  {
    NextExtends(s, step);
    if step == Advance(tid) && tid in s.threads {
      DeciderAdvances(s, tid);
    }
  }

  lemma {:induction false} PeekBehind(cap: Option<nat>, steps: seq<Step>, tid: Tid) returns (p: nat)
    requires tid in Run(cap, steps).threads && Run(cap, steps).threads[tid].DecideRemove?
    ensures var pc := Run(cap, steps).threads[tid]; PeeksAt(cap, steps, p, tid, pc.id, pc.decision)
    decreases |steps|
  {
    var n := |steps| - 1;
    var s := Run(cap, steps[..n]);
    if tid in s.threads && Run(cap, steps).threads[tid] == s.threads[tid] {
      p := PeekBehind(cap, steps[..n], tid);
      assert steps[..n][..p] == steps[..p];
    } else {
      DecidersMoveThemselves(s, steps[n], tid);
      p := n;
    }
  }

  /** A successful peek is in the log from then on. */
  lemma PeekIsLogged(cap: Option<nat>, steps: seq<Step>, p: nat, n: nat, tid: Tid, id: Id, d: Decision)
    requires PeeksAt(cap, steps, p, tid, id, d) && p < n <= |steps|
    ensures var s, log := Run(cap, steps[..p]), Run(cap, steps[..n]).log;
            |s.log| < |log| && log[|s.log|] == Peeked(tid, id, s.table[id], s.clock)
  {
    assert steps[..p + 1] == steps[..p] + [steps[p]] && steps[..n] == steps[..p + 1] + steps[p + 1..n];
    RunMore(cap, steps[..p], steps[p]);
    RecordsGrow(cap, steps[..p + 1], steps[p + 1..n]);
  }

  lemma {:induction false} RemovalBehind(cap: Option<nat>, steps: seq<Step>, tid: Tid) returns (q: nat)
    requires tid in Run(cap, steps).threads && Run(cap, steps).threads[tid].DecideSend?
    ensures var pc := Run(cap, steps).threads[tid]; RemovesAt(cap, steps, q, tid, pc.id, pc.decision, pc.entry)
    decreases |steps|
  {
    var n := |steps| - 1;
    var s := Run(cap, steps[..n]);
    if tid in s.threads && Run(cap, steps).threads[tid] == s.threads[tid] {
      q := RemovalBehind(cap, steps[..n], tid);
      assert steps[..n][..q] == steps[..q];
    } else {
      DecidersMoveThemselves(s, steps[n], tid);
      q := n;
    }
  }

  lemma SendsThemselves(s: State, step: Step)
    ensures var s' := Next(s, step);
            && s.log <= s'.log && |s'.log| <= |s.log| + 1
            && (|s'.log| > |s.log| && s'.log[|s.log|].Sent? ==>
                  var e := s'.log[|s.log|];
                  e.tid in s.threads && s.threads[e.tid] == DecideSend(e.id, e.decision, e.entry))
  {
  }

  lemma {:induction false} SendBehind(cap: Option<nat>, steps: seq<Step>, j: nat) returns (n: nat)
    requires j < |Run(cap, steps).log| && Run(cap, steps).log[j].Sent?
    ensures n < |steps| && |Run(cap, steps[..n]).log| == j
    ensures var s, e := Run(cap, steps[..n]), Run(cap, steps).log[j];
            e.tid in s.threads && s.threads[e.tid] == DecideSend(e.id, e.decision, e.entry)
    decreases |steps|
  {
    n := |steps| - 1;
    var s := Run(cap, steps[..n]);
    SendsThemselves(s, steps[n]);
    if j < |s.log| {
      var last := n;
      n := SendBehind(cap, steps[..last], j);
      assert steps[..last][..n] == steps[..n];
    }
  }

  // ---- theorems ---------------------------------------------------------------------------

  /**
    Behind every decision sent lie a call that gave it for this id, one successful peek of that
    call and one removal. The insertion decided is the one peeked exactly when nobody inserted
    under the id in between.
   */
  lemma DecidedIsPeekedExactly(cap: Option<nat>, steps: seq<Step>, j: nat) returns (c: nat, p: nat, q: nat)
    requires j < |Run(cap, steps).log| && Run(cap, steps).log[j].Sent?
    ensures var e := Run(cap, steps).log[j];
            && RemovesAt(cap, steps, q, e.tid, e.id, e.decision, e.entry)
            && c < p < q && steps[c] == CallDecide(e.tid, e.id, e.decision)
            && PeeksAt(cap, steps, p, e.tid, e.id, e.decision) && |Run(cap, steps[..p]).log| < j
            && var peek, removal := Run(cap, steps[..p]), Run(cap, steps[..q]);
               (e.entry == peek.table[e.id]
                <==> forall k | |peek.inserted| <= k < |removal.inserted| :: removal.inserted[k].0 != e.id)
  {
    var e := Run(cap, steps).log[j];
    var n := SendBehind(cap, steps, j);
    q := RemovalBehind(cap, steps[..n], e.tid);
    assert steps[..n][..q] == steps[..q];
    p := PeekBehind(cap, steps[..q], e.tid);
    assert steps[..q][..p] == steps[..p] && steps[..q] == steps[..p] + steps[p..q];
    c := CallBehind(cap, steps[..p], e.tid);
    SameInsertionExactly(cap, steps[..p], steps[p..q], e.id);
    PeekIsLogged(cap, steps, p, n, e.tid, e.id, e.decision);
  }

  /** The id was inserted at most once. */
  ghost predicate InsertedOnce(s: State, id: Id) {
    forall k, l | 0 <= k < l < |s.inserted| && s.inserted[k].0 == id :: s.inserted[l].0 != id
  }

  /** In particular, when the id decided is not reused, the insertion decided is the one peeked, and it was unexpired then. */
  lemma DecidedIsPeekedWithoutReuse(cap: Option<nat>, steps: seq<Step>, j: nat)
    requires j < |Run(cap, steps).log| && Run(cap, steps).log[j].Sent? && InsertedOnce(Run(cap, steps), Run(cap, steps).log[j].id)
    ensures var log := Run(cap, steps).log;
            exists i :: 0 <= i < j && log[i].Peeked? && log[i].tid == log[j].tid
                        && log[i].seen == log[j].entry && log[i].at <= log[j].entry.expiresAt
  {
    var e := Run(cap, steps).log[j];
    var _, p, q := DecidedIsPeekedExactly(cap, steps, j);
    PeekIsLogged(cap, steps, p, |steps|, e.tid, e.id, e.decision);
    assert steps[..|steps|] == steps;
    NoneInserted(cap, steps, p, q, e.id);
    assert Run(cap, steps).log[|Run(cap, steps[..p]).log|].seen == e.entry;
  }

  lemma RecordsSoFar(cap: Option<nat>, steps: seq<Step>, p: nat)
    requires p <= |steps|
    ensures Run(cap, steps[..p]).inserted <= Run(cap, steps).inserted
  {
    assert steps == steps[..p] + steps[p..];
    RecordsGrow(cap, steps[..p], steps[p..]);
  }

  lemma NoneInserted(cap: Option<nat>, steps: seq<Step>, p: nat, q: nat, id: Id)
    requires p <= q <= |steps| && id in Run(cap, steps[..p]).table && InsertedOnce(Run(cap, steps), id)
    ensures var peek, removal := Run(cap, steps[..p]), Run(cap, steps[..q]);
            forall k | |peek.inserted| <= k < |removal.inserted| :: removal.inserted[k].0 != id
  {
    ReachableNewest(cap, steps[..p]);
    RecordsSoFar(cap, steps, p);
    RecordsSoFar(cap, steps, q);
    NoneAfter(Run(cap, steps[..p]), Run(cap, steps[..q]), Run(cap, steps), id);
  }

  lemma NoneAfter(peek: State, removal: State, end: State, id: Id)
    requires NewestInTable(peek) && id in peek.table && InsertedOnce(end, id)
    requires peek.inserted <= end.inserted && removal.inserted <= end.inserted
    ensures forall k | |peek.inserted| <= k < |removal.inserted| :: removal.inserted[k].0 != id
  {
    assert end.inserted[peek.table[id].token].0 == id;
    forall k | |peek.inserted| <= k < |removal.inserted| ensures removal.inserted[k].0 != id {
      assert end.inserted[k] == removal.inserted[k];
    }
  }
}
