/**
  The pending-approval table as a value: what one call does to the map when it
  runs alone, and what each read of the map reports.
 */
module ApprovalTable {
  import opened Wrappers

  /** A reading of the monotonic clock, in nanoseconds. */
  type Instant = int
  type Id = string

  datatype Decision = Approve | Deny
  datatype ApprovalError = NotFound | Expired | CapExceeded
  datatype Meta = Meta(principalId: string, action: string, resourceId: string, reason: Option<string>)
  /** `sender` names the channel back to the stream task that waits. */
  datatype Entry = Entry(expiresAt: Instant, sender: nat, expiresAtUtc: int, meta: Meta)
  datatype Status = Status(id: Id, meta: Meta, expiresAt: int, expired: bool)
  datatype Message = Message(sender: nat, id: Id, decision: Decision)

  type Table = map<Id, Entry>

  /** The longest duration chrono can hold: `i64::MAX` milliseconds, in nanoseconds. */
  const MAX_CHRONO_NANOS: int := 0x7FFF_FFFF_FFFF_FFFF * 1_000_000

  predicate Lapsed(e: Entry, now: Instant) {
    now > e.expiresAt
  }

  /** The display deadline: wall clock plus the saturating time left, or plus zero when chrono cannot hold it. */
  function DisplayDeadline(expiresAt: Instant, now: Instant, utcNow: int): (utc: int)
    ensures utcNow <= utc
    ensures now <= expiresAt && expiresAt - now <= MAX_CHRONO_NANOS ==> utc - utcNow == expiresAt - now
    ensures expiresAt < now || expiresAt - now > MAX_CHRONO_NANOS ==> utc == utcNow
  {
    var ttl := if expiresAt < now then 0 else expiresAt - now;
    utcNow + if ttl <= MAX_CHRONO_NANOS then ttl else 0
  }

  function Register(t: Table, cap: Option<nat>, id: Id, e: Entry): (Table, Result<(), ApprovalError>) {
    if cap.Some? && |t| >= cap.value then (t, Err(CapExceeded))
    else if id in t then (t, Err(NotFound))
    else (t[id := e], Ok(()))
  }

  /** The table after the call, the answer, and the message handed to the waiting task. */
  function Decide(t: Table, id: Id, d: Decision, now: Instant)
    : (Table, Result<(), ApprovalError>, Option<Message>)
  {
    if id !in t then (t, Err(NotFound), None)
    else if Lapsed(t[id], now) then (t, Err(Expired), None)
    else (t - {id}, Ok(()), Some(Message(t[id].sender, id, d)))
  }

  function StatusAt(t: Table, id: Id, now: Instant): Option<Status> {
    if id in t then Some(Status(id, t[id].meta, t[id].expiresAtUtc, Lapsed(t[id], now))) else None
  }

  /** What `list` reports, by id; the order of the vector is that of the hash map. */
  function Listed(t: Table, now: Instant): map<Id, Status> {
    map id | id in t && !Lapsed(t[id], now) :: Status(id, t[id].meta, t[id].expiresAtUtc, false)
  }

  function Purge(t: Table, now: Instant): Table {
    map id | id in t && !Lapsed(t[id], now) :: t[id]
  }

  function Sooner(a: Option<Instant>, b: Option<Instant>): Option<Instant> {
    if a.None? then b
    else if b.None? || a.value <= b.value then a
    else b
  }

  function EarliestExpiry(t: Table, ids: seq<Id>): Option<Instant> {
    if ids == [] then None
    else Sooner(EarliestExpiry(t, ids[..|ids| - 1]),
                if ids[|ids| - 1] in t then Some(t[ids[|ids| - 1]].expiresAt) else None)
  }

  /** Four reads of one deadline: listed, unexpired, kept by the janitor and decidable are the same thing. */
  lemma OneDeadline(t: Table, id: Id, d: Decision, now: Instant)
    ensures id in Listed(t, now) <==> StatusAt(t, id, now).Some? && !StatusAt(t, id, now).value.expired
    ensures id in Listed(t, now) <==> id in Purge(t, now)
    ensures id in Listed(t, now) <==> Decide(t, id, d, now).1.Ok?
    ensures id in Listed(t, now) ==> StatusAt(t, id, now) == Some(Listed(t, now)[id])
  {
  }

  /** Every tracked id of `ids` can still be decided at `now`. */
  ghost predicate AllDecidable(t: Table, ids: seq<Id>, now: Instant) {
    forall id | id in ids && id in t :: Decide(t, id, Approve, now).1.Ok?
  }

  /** The fifth view: the stream task's timeout is the last instant at which every tracked id is decidable. */
  lemma {:induction false} EarliestExpiryIsLastDecidableInstant(t: Table, ids: seq<Id>, now: Instant)
    ensures EarliestExpiry(t, ids).None? <==> forall id | id in ids :: id !in t
    ensures EarliestExpiry(t, ids).Some? ==> (now <= EarliestExpiry(t, ids).value <==> AllDecidable(t, ids, now))
  {
    if ids != [] {
      var front, last := ids[..|ids| - 1], ids[|ids| - 1];
      EarliestExpiryIsLastDecidableInstant(t, front, now);
      assert ids == front + [last];
      assert forall id :: id in ids <==> id in front || id == last;
    }
  }
}
