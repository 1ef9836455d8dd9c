/** The in-process approval store: a shared map that its methods insert into, remove from and retain. */
module ApprovalStore {
  import opened Wrappers
  import opened ApprovalTable

  class MemoryApprovalStore {
    var inner: Table
    /** What has been put into the stream tasks' unbounded channels, oldest first. */
    var delivered: seq<Message>
    const cap: Option<nat>

    constructor (cap: Option<nat>)
      ensures this.cap == cap && inner == map[] && delivered == []
    {
      this.cap := cap;
      inner, delivered := map[], [];
    }

    method Register(id: Id, expiresAt: Instant, sender: nat, meta: Meta, now: Instant, utcNow: int)
      returns (r: Result<(), ApprovalError>)
      modifies this`inner
      ensures (inner, r) == ApprovalTable.Register(old(inner), cap, id,
                                                   Entry(expiresAt, sender, DisplayDeadline(expiresAt, now, utcNow), meta))
      ensures r == Err(CapExceeded) <==> cap.Some? && |old(inner)| >= cap.value
      ensures r == Ok(()) <==> (cap.Some? ==> |old(inner)| < cap.value) && id !in old(inner)
      ensures inner == if r.Ok? then old(inner)[id := Entry(expiresAt, sender, DisplayDeadline(expiresAt, now, utcNow), meta)] else old(inner)
      ensures cap.Some? && |old(inner)| <= cap.value ==> |inner| <= cap.value
    {
      if cap.Some? && |inner| >= cap.value {
        return Err(CapExceeded);
      }
      if id in inner {
        return Err(NotFound);
      }
      inner := inner[id := Entry(expiresAt, sender, DisplayDeadline(expiresAt, now, utcNow), meta)];
      r := Ok(());
    }

    method Decide(id: Id, d: Decision, now: Instant) returns (r: Result<(), ApprovalError>)
      modifies this`inner, this`delivered
      ensures var (t, answer, sent) := ApprovalTable.Decide(old(inner), id, d, now);
              inner == t && r == answer
              && delivered == if sent.Some? then old(delivered) + [sent.value] else old(delivered)
      ensures r.Ok? <==> id in old(inner) && now <= old(inner)[id].expiresAt
      ensures r == Err(Expired) <==> id in old(inner) && now > old(inner)[id].expiresAt
      ensures r.Ok? ==> inner == old(inner) - {id} && delivered == old(delivered) + [Message(old(inner)[id].sender, id, d)]
      ensures r.Err? ==> inner == old(inner) && delivered == old(delivered)
    {
      if id !in inner {
        return Err(NotFound);
      }
      if now > inner[id].expiresAt {
        return Err(Expired);
      }
      var entry := inner[id];
      inner := inner - {id};
      delivered := delivered + [Message(entry.sender, id, d)];
      r := Ok(());
    }

    method Status(id: Id, now: Instant) returns (s: Option<ApprovalTable.Status>)
      ensures s == StatusAt(inner, id, now)
    {
      if id in inner {
        var e := inner[id];
        s := Some(ApprovalTable.Status(id, e.meta, e.expiresAtUtc, now > e.expiresAt));
      } else {
        s := None;
      }
    }

    /** Every unexpired entry exactly once, in whatever order the map yields its shards. */
    method List(now: Instant) returns (out: seq<ApprovalTable.Status>)
      ensures forall s :: s in out <==> s.id in Listed(inner, now) && Listed(inner, now)[s.id] == s
      ensures forall i, j :: 0 <= i < j < |out| ==> out[i].id != out[j].id
    {
      out := [];
      var todo := inner.Keys;
      while todo != {}
        invariant todo <= inner.Keys
        invariant forall s :: s in out <==> s.id !in todo && s.id in Listed(inner, now) && Listed(inner, now)[s.id] == s
        invariant forall i, j :: 0 <= i < j < |out| ==> out[i].id != out[j].id
      {
        var id :| id in todo;
        var e := inner[id];
        if now <= e.expiresAt {
          forall i | 0 <= i < |out| ensures out[i].id != id {
            assert out[i] in out;
          }
          out := out + [ApprovalTable.Status(id, e.meta, e.expiresAtUtc, false)];
        }
        todo := todo - {id};
      }
    }

    method EarliestExpiry(ids: seq<Id>) returns (earliest: Option<Instant>)
      ensures earliest == ApprovalTable.EarliestExpiry(inner, ids)
    {
      earliest := None;
      for i := 0 to |ids|
        invariant earliest == ApprovalTable.EarliestExpiry(inner, ids[..i])
      {
        assert ids[..i + 1][..i] == ids[..i];
        if ids[i] in inner {
          var at := inner[ids[i]].expiresAt;
          if earliest.None? || at < earliest.value {
            earliest := Some(at);
          }
        }
      }
      assert ids[..|ids|] == ids;
    }

    method PurgeExpired(now: Instant) returns (removed: nat)
      modifies this`inner
      ensures inner == Purge(old(inner), now)
      ensures removed == |old(inner)| - |inner|
    {
      removed := 0;
      var todo := inner.Keys;
      while todo != {}
        invariant todo <= old(inner).Keys
        invariant forall id :: id in inner <==> id in old(inner) && (id in todo || !Lapsed(old(inner)[id], now))
        invariant forall id | id in inner :: inner[id] == old(inner)[id]
        invariant removed == |old(inner)| - |inner|
      {
        var id :| id in todo;
        if now > inner[id].expiresAt {
          assert inner.Keys == (inner - {id}).Keys + {id};
          inner := inner - {id};
          removed := removed + 1;
        }
        todo := todo - {id};
      }
    }
  }
}
