/** The two models of the store agree: a call that nothing interrupts does to the shared map what the atomic call does. */
module ApprovalSolo {
  import opened Wrappers
  import opened ApprovalTable
  import opened ApprovalRaces
  import opened ApprovalRaceTheorems

  /** `t` and the map of `s` hold the same ids with the same deadlines. */
  ghost predicate SameEntries(t: Table, s: State) {
    t.Keys == s.table.Keys && forall id | id in t :: t[id].expiresAt == s.table[id].expiresAt
  }


  lemma SameSize(t: Table, s: State)
    requires SameEntries(t, s)
    ensures |t| == |s.table|
  {
    assert |t| == |t.Keys| && |s.table| == |s.table.Keys|;
  }

  /** A call whose three steps run together; once it has answered, further steps change nothing. */
  function Uninterrupted(s: State, call: Step, tid: Tid): State {
    Next(Next(Next(Next(s, call), Advance(tid)), Advance(tid)), Advance(tid))
  }

  lemma RegisterIsAtomic(t: Table, s: State, tid: Tid, id: Id, e: Entry)
    requires SameEntries(t, s) && tid !in s.threads
    ensures var s' := Uninterrupted(s, CallRegister(tid, id, e.expiresAt), tid);
            var (t', r) := Register(t, s.cap, id, e);
            SameEntries(t', s') && tid in s'.threads && s'.threads[tid] == RegisterDone(r)
  {
    SameSize(t, s);
  }

  lemma RefusedDecision(s: State, tid: Tid, id: Id, d: Decision)
    requires tid !in s.threads && (id in s.table ==> s.clock > s.table[id].expiresAt)
    ensures Uninterrupted(s, CallDecide(tid, id, d), tid)
            == At(s, tid, DecideDone(Err(if id in s.table then Expired else NotFound)))
  {
    AtAgain(s, tid, DecidePeek(id, d), DecideDone(Err(if id in s.table then Expired else NotFound)));
  }

  lemma AcceptedDecision(s: State, tid: Tid, id: Id, d: Decision)
    requires tid !in s.threads && id in s.table && s.clock <= s.table[id].expiresAt
    ensures var s' := Uninterrupted(s, CallDecide(tid, id, d), tid);
            && s'.table == s.table - {id} && tid in s'.threads && s'.threads[tid] == DecideDone(Ok(()))
            && s'.log == s.log + [Peeked(tid, id, s.table[id], s.clock)] + [Sent(tid, id, d, s.table[id])]
  {
  }

  lemma DecideIsAtomic(t: Table, s: State, tid: Tid, id: Id, d: Decision)
    requires SameEntries(t, s) && tid !in s.threads
    ensures var s' := Uninterrupted(s, CallDecide(tid, id, d), tid);
            var (t', r, sent) := Decide(t, id, d, s.clock);
            && SameEntries(t', s') && tid in s'.threads && s'.threads[tid] == DecideDone(r)
            && (if sent.Some? then
                  |s'.log| == |s.log| + 2 && s'.log[|s.log| + 1] == Sent(tid, sent.value.id, sent.value.decision, s.table[id])
                else s'.log == s.log)
  {
    if id in s.table && s.clock <= s.table[id].expiresAt {
      AcceptedDecision(s, tid, id, d);
    } else {
      RefusedDecision(s, tid, id, d);
    }
  }

  /** The purger `tid` visits `ids` in turn. */
  function Visits(s: State, tid: Tid, ids: seq<Id>): State
    decreases |ids|
  {
    if ids == [] then s else Next(Visits(s, tid, ids[..|ids| - 1]), PurgeVisit(tid, ids[|ids| - 1]))
  }

  lemma {:induction false} VisitsRemoveTheLapsed(s: State, tid: Tid, ids: seq<Id>)
    requires tid in s.threads && s.threads[tid].Purging?
    ensures var s' := Visits(s, tid, ids);
            && s'.threads == s.threads && s'.clock == s.clock
            && (forall id :: id in s'.table <==>
                  id in s.table && !(id in ids && s.threads[tid].asOf > s.table[id].expiresAt))
            && (forall id | id in s'.table :: s'.table[id] == s.table[id])
    decreases |ids|
  {
    if ids != [] {
      var front, last := ids[..|ids| - 1], ids[|ids| - 1];
      VisitsRemoveTheLapsed(s, tid, front);
      assert ids == front + [last];
      assert forall id :: id in ids <==> id in front || id == last;
    }
  }

  /** In whatever order the janitor comes to all the entries. */
  lemma PurgeIsAtomic(t: Table, s: State, tid: Tid, ids: seq<Id>)
    requires SameEntries(t, s) && tid !in s.threads && forall id | id in s.table :: id in ids
    ensures var s' := Visits(Next(s, CallPurge(tid)), tid, ids);
            SameEntries(Purge(t, s.clock), s') && s'.threads == s.threads[tid := Purging(s.clock)]
  {
    VisitsRemoveTheLapsed(Next(s, CallPurge(tid)), tid, ids);
  }
}
