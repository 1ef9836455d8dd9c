/** The answers of the store told from the calls before them, without any table. */
module ApprovalHistory {
  import opened Wrappers
  import opened ApprovalTable
  import opened ApprovalRuns

  type Log = seq<(Call, Answer)>

  /** The entry pending under `id`: the latest accepted registration, unless it was decided or purged since. */
  function Pending(log: Log, id: Id): Option<Entry> {
    if log == [] then None
    else
      var (call, answer) := log[|log| - 1];
      var before := Pending(log[..|log| - 1], id);
      match call
      case RegisterCall(i, e, _) => if i == id && answer == Registered(Ok(())) then Some(e) else before
      case DecideCall(i, _, _) => if i == id && answer.Decided? && answer.outcome.Ok? then None else before
      case PurgeCall(now) => if before.Some? && now > before.value.expiresAt then None else before
      case _ => before
  }

  function PendingIds(log: Log): set<Id> {
    set i | 0 <= i < |log| && log[i].0.RegisterCall? && Pending(log, log[i].0.id).Some? :: log[i].0.id
  }

  /** The pending ids whose deadline has passed. */
  function LapsedIds(log: Log, now: Instant): set<Id> {
    set id | id in PendingIds(log) && Pending(log, id).Some? && now > Pending(log, id).value.expiresAt
  }

  ghost predicate ListedAs(before: Log, id: Id, now: Instant, shown: Option<Status>) {
    match Pending(before, id)
    case None => shown.None?
    case Some(e) => shown == if now > e.expiresAt then None else Some(Status(id, e.meta, e.expiresAtUtc, false))
  }

  /** `at` is the least deadline of those pending among `ids`. */
  ghost predicate IsEarliest(before: Log, ids: seq<Id>, at: Option<Instant>) {
    match at
    case None => forall id | id in ids :: Pending(before, id).None?
    case Some(d) =>
      && (exists id :: id in ids && Pending(before, id).Some? && Pending(before, id).value.expiresAt == d)
      && forall id | id in ids && Pending(before, id).Some? :: d <= Pending(before, id).value.expiresAt
  }

  /** The answer `a` to `call` after `before`, outright. */
  ghost predicate Follows(cap: Option<nat>, before: Log, call: Call, a: Answer) {
    match call
    case RegisterCall(id, _, _) =>
      a == Registered(if cap.Some? && |PendingIds(before)| >= cap.value then Err(CapExceeded)
                      else if Pending(before, id).Some? then Err(NotFound) else Ok(()))
    case DecideCall(id, d, now) => (
      match Pending(before, id)
      case None => a == Decided(Err(NotFound), None)
      case Some(e) =>
        if now > e.expiresAt then a == Decided(Err(Expired), None)
        else a == Decided(Ok(()), Some(Message(e.sender, id, d))))
    case StatusCall(id, now) => (
      match Pending(before, id)
      case None => a == Reported(None)
      case Some(e) => a == Reported(Some(Status(id, e.meta, e.expiresAtUtc, now > e.expiresAt))))
    case ListCall(now) =>
      a.Listing? && forall id :: ListedAs(before, id, now, if id in a.pending then Some(a.pending[id]) else None)
    case EarliestCall(ids, _) => a.Deadline? && IsEarliest(before, ids, a.at)
    case PurgeCall(now) =>
      a == Removed(|LapsedIds(before, now)|)
  }

  // ---- the table holds what is pending ------------------------------------------------------

  ghost predicate Holds(t: Table, log: Log) {
    forall id :: if id in t then Pending(log, id) == Some(t[id]) else Pending(log, id).None?
  }

  lemma CallKeepsHolding(cap: Option<nat>, t: Table, log: Log, call: Call)
    requires Holds(t, log)
    ensures Holds(Apply(cap, t, call).0, log + [(call, Apply(cap, t, call).1)])
  {
    var more := log + [(call, Apply(cap, t, call).1)];
    assert more[..|more| - 1] == log;
    forall id ensures Pending(log, id) == if id in t then Some(t[id]) else None {
    }
  }

  /** A log with the table it leaves, extended by one call. */
  lemma {:induction false} RunMore(cap: Option<nat>, t: Table, calls: seq<Call>, call: Call)
    ensures var last := After(cap, t, calls);
            && Run(cap, t, calls + [call]) == Run(cap, t, calls) + [(call, Apply(cap, last, call).1)]
            && After(cap, t, calls + [call]) == Apply(cap, last, call).0
    decreases |calls|
  {
    if calls == [] {
      assert calls + [call] == [call] && [call][1..] == [];
    } else {
      assert (calls + [call])[1..] == calls[1..] + [call];
      RunMore(cap, Apply(cap, t, calls[0]).0, calls[1..], call);
    }
  }

  lemma {:induction false} TableHolds(cap: Option<nat>, calls: seq<Call>)
    ensures Holds(After(cap, map[], calls), Run(cap, map[], calls))
    decreases |calls|
  {
    if calls != [] {
      var front, last := calls[..|calls| - 1], calls[|calls| - 1];
      TableHolds(cap, front);
      RunMore(cap, map[], front, last);
      assert calls == front + [last];
      CallKeepsHolding(cap, After(cap, map[], front), Run(cap, map[], front), last);
    }
  }

  /** Only a registered id can be pending. */
  lemma {:induction false} PendingWasRegistered(log: Log, id: Id)
    requires Pending(log, id).Some?
    ensures id in PendingIds(log)
  {
    var i := RegistrationOf(log, id);
    assert log[i].0.id == id;
  }

  lemma {:induction false} RegistrationOf(log: Log, id: Id) returns (i: nat)
    requires Pending(log, id).Some?
    ensures i < |log| && log[i].0.RegisterCall? && log[i].0.id == id
  {
    i := |log| - 1;
    if !(log[i].0.RegisterCall? && log[i].0.id == id) {
      i := RegistrationOf(log[..|log| - 1], id);
    }
  }

  lemma PendingIdsAreTheKeys(t: Table, log: Log)
    requires Holds(t, log)
    ensures PendingIds(log) == t.Keys
  {
    forall id ensures id in t.Keys <==> id in PendingIds(log) {
      if id in t {
        PendingWasRegistered(log, id);
      }
    }
  }

  lemma {:induction false} EarliestIsTheMinimum(t: Table, ids: seq<Id>)
    ensures match EarliestExpiry(t, ids)
            case None => forall id | id in ids :: id !in t
            case Some(at) => && (exists id :: id in ids && id in t && t[id].expiresAt == at)
                             && forall id | id in ids && id in t :: at <= t[id].expiresAt
  {
    if ids != [] {
      var front, last := ids[..|ids| - 1], ids[|ids| - 1];
      EarliestIsTheMinimum(t, front);
      assert ids == front + [last];
      assert forall id :: id in ids <==> id in front || id == last;
      assert last in ids;
    }
  }

  lemma PurgeRemoves(t: Table, now: Instant, gone: set<Id>)
    requires forall id :: id in gone <==> id in t && now > t[id].expiresAt
    ensures |t| - |Purge(t, now)| == |gone|
  {
    assert t.Keys == Purge(t, now).Keys + gone && Purge(t, now).Keys !! gone;
    assert |t| == |t.Keys| && |Purge(t, now)| == |Purge(t, now).Keys|;
  }

  lemma TableAnswers(cap: Option<nat>, t: Table, log: Log, call: Call)
    requires Holds(t, log)
    ensures Follows(cap, log, call, Apply(cap, t, call).1)
  {
    PendingIdsAreTheKeys(t, log);
    match call
    case EarliestCall(ids, _) => EarliestFollows(t, log, ids);
    case PurgeCall(now) => PurgeRemoves(t, now, LapsedIds(log, now));
    case _ =>
  }

  lemma EarliestFollows(t: Table, log: Log, ids: seq<Id>)
    requires Holds(t, log)
    ensures IsEarliest(log, ids, EarliestExpiry(t, ids))
  {
    EarliestIsTheMinimum(t, ids);
    if EarliestExpiry(t, ids).Some? {
      var id :| id in ids && id in t && t[id].expiresAt == EarliestExpiry(t, ids).value;
      assert Pending(log, id) == Some(t[id]);
    }
  }

  /**
    Every answer in every history follows from the calls and answers before it: an accepted
    decision is sent as given, under its id, to the sender of the latest accepted registration;
    and what is pending is that registration until it is decided or a purge finds it lapsed.
   */
  lemma AnswersFollowFromHistory(cap: Option<nat>, calls: seq<Call>, i: nat)
    requires i < |calls|
    ensures var log := Run(cap, map[], calls);
            log[i].0 == calls[i] && Follows(cap, log[..i], calls[i], log[i].1)
  {
    LogPrefix(cap, map[], calls, i);
    TableHolds(cap, calls[..i]);
    TableAnswers(cap, After(cap, map[], calls[..i]), Run(cap, map[], calls[..i]), calls[i]);
  }

  lemma {:induction false} LogPrefix(cap: Option<nat>, t: Table, calls: seq<Call>, i: nat)
    requires i < |calls|
    ensures Run(cap, t, calls)[..i] == Run(cap, t, calls[..i])
    ensures Run(cap, t, calls)[i] == (calls[i], Apply(cap, After(cap, t, calls[..i]), calls[i]).1)
    decreases |calls|
  {
    var front, last := calls[..|calls| - 1], calls[|calls| - 1];
    assert calls == front + [last];
    RunMore(cap, t, front, last);
    if i < |front| {
      LogPrefix(cap, t, front, i);
      assert calls[..i] == front[..i];
    }
  }
}
