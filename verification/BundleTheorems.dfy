/** The two folds over policy rows compared, row by row and over whole builds. */
module BundleTheorems {
  import opened Wrappers
  import opened Bundle

  // ---- lenient refines strict -----------------------------------------------------------

  lemma {:induction false} StrictOverSurvivors(c: Cedar, a: Acc, rows: seq<PolicyRecord>)
    ensures StrictFrom(c, a, SurvivorsFrom(c, a, rows)) == Ok(LenientFrom(c, a, rows))
    decreases |rows|
  {
    if rows != [] {
      if Merges(c, rows[0], a) {
        var kept := SurvivorsFrom(c, a, rows);
        assert kept[1..] == SurvivorsFrom(c, Merge(c, rows[0], a).0, rows[1..]);
        StrictOverSurvivors(c, Merge(c, rows[0], a).0, rows[1..]);
      } else {
        StrictOverSurvivors(c, a, rows[1..]);
      }
    }
  }

  lemma {:induction false} LenientSnoc(c: Cedar, a: Acc, rows: seq<PolicyRecord>, r: PolicyRecord)
    ensures var before := LenientFrom(c, a, rows);
            && LenientFrom(c, a, rows + [r]) == (if Merges(c, r, before) then Merge(c, r, before).0 else before)
            && SurvivorsFrom(c, a, rows + [r])
               == SurvivorsFrom(c, a, rows) + (if Merges(c, r, before) then [r] else [])
    decreases |rows|
  {
    if rows == [] {
      assert rows + [r] == [r] && [r][1..] == [];
    } else {
      assert (rows + [r])[1..] == rows[1..] + [r];
      LenientSnoc(c, if Merges(c, rows[0], a) then Merge(c, rows[0], a).0 else a, rows[1..], r);
    }
  }

  /**
    The lenient build has the policies and schema of the strict fold over its survivors,
    and a row is skipped exactly when it fails on what the earlier survivors built.
   */
  lemma LenientRefinesStrict(c: Cedar, rows: seq<PolicyRecord>, i: nat)
    requires i < |rows|
    ensures StrictFrom(c, NOTHING, Survivors(c, rows)) == Ok(LenientFrom(c, NOTHING, rows))
    ensures var sofar := Survivors(c, rows[..i]);
            StrictFrom(c, NOTHING, sofar).Ok?
            && Survivors(c, rows[..i + 1])
               == sofar + (if Merges(c, rows[i], StrictFrom(c, NOTHING, sofar).value) then [rows[i]] else [])
  {
    StrictOverSurvivors(c, NOTHING, rows);
    StrictOverSurvivors(c, NOTHING, rows[..i]);
    assert rows[..i + 1] == rows[..i] + [rows[i]];
    LenientSnoc(c, NOTHING, rows[..i], rows[i]);
  }

  lemma {:induction false} StrictSucceedsWhenAllSurvive(c: Cedar, a: Acc, rows: seq<PolicyRecord>)
    ensures StrictFrom(c, a, rows).Ok? <==> SurvivorsFrom(c, a, rows) == rows
    ensures StrictFrom(c, a, rows).Ok? ==> StrictFrom(c, a, rows).value == LenientFrom(c, a, rows)
    ensures |SurvivorsFrom(c, a, rows)| <= |rows|
    decreases |rows|
  {
    if rows != [] {
      if Merges(c, rows[0], a) {
        StrictSucceedsWhenAllSurvive(c, Merge(c, rows[0], a).0, rows[1..]);
        assert SurvivorsFrom(c, a, rows)[1..] == SurvivorsFrom(c, Merge(c, rows[0], a).0, rows[1..]);
        assert rows == [rows[0]] + rows[1..];
      } else {
        StrictSucceedsWhenAllSurvive(c, a, rows[1..]);
      }
    }
  }

  /** The strict build succeeds exactly when no row is skipped and the entities compile; then the builds are equal. */
  lemma StrictSuccessMeansEqualBundles(c: Cedar, rows: seq<PolicyRecord>)
    ensures FromRecords(c, rows).Ok?
            <==> Survivors(c, rows) == rows
                 && BuildEntities(c, LenientFrom(c, NOTHING, rows).entities, LenientFrom(c, NOTHING, rows).schema).Some?
    ensures FromRecords(c, rows).Ok? ==> FromRecords(c, rows).value == FromRecordsLenient(c, rows)
  {
    StrictSucceedsWhenAllSurvive(c, NOTHING, rows);
  }

  // ---- rows merge all-or-nothing --------------------------------------------------------

  /** The lenient fold without its copies: every row is merged into the accumulators themselves. */
  function InPlaceFrom(c: Cedar, a: Acc, rows: seq<PolicyRecord>): Acc
    decreases |rows|
  {
    if rows == [] then a else InPlaceFrom(c, Merge(c, rows[0], a).0, rows[1..])
  }

  /** No build can tell whether the lenient loader copies its accumulators, duplicate row ids included. */
  lemma {:induction false} CopiesNeverMatter(c: Cedar, a: Acc, rows: seq<PolicyRecord>)
    requires FromZero(a.policies)
    ensures InPlaceFrom(c, a, rows) == LenientFrom(c, a, rows)
    ensures FromZero(LenientFrom(c, a, rows).policies)
    decreases |rows|
  {
    if rows != [] {
      MergeIsAllOrNothing(c, rows[0], a);
      CopiesNeverMatter(c, Merge(c, rows[0], a).0, rows[1..]);
    }
  }

  lemma EveryFailingRowLeavesTheBuildUntouched(c: Cedar, rows: seq<PolicyRecord>, r: PolicyRecord)
    ensures !Merges(c, r, LenientFrom(c, NOTHING, rows)) ==> Merge(c, r, LenientFrom(c, NOTHING, rows)).0 == LenientFrom(c, NOTHING, rows)
  {
    CopiesNeverMatter(c, NOTHING, rows);
    MergeIsAllOrNothing(c, r, LenientFrom(c, NOTHING, rows));
  }

  // ---- what ends up in the policy set ---------------------------------------------------

  /** All the statements of the row's text. */
  function StatementsOf(c: Cedar, r: PolicyRecord): seq<Statement> {
    match c.parsePolicies(r.policyText)
    case None => []
    case Some(stmts) => stmts
  }

  /** The text parses, and every statement's scoped id is acceptable. */
  ghost predicate TextAccepted(c: Cedar, r: PolicyRecord) {
    c.parsePolicies(r.policyText).Some? && forall i | 0 <= i < |StatementsOf(c, r)| :: c.acceptsId(ScopedId(r.id, i))
  }

  /** A row is staged exactly when its text is accepted, and then with all its statements. */
  lemma StagedExactly(c: Cedar, r: PolicyRecord)
    ensures Staged(c, r) == if TextAccepted(c, r) then Some(StatementsOf(c, r)) else None
  {
  }

  /** The row's own schema: a JSON string holds schema text, anything else is a JSON schema. */
  function OwnSchema(c: Cedar, r: PolicyRecord): Option<Schema> {
    match r.schemaJson
    case None => None
    case Some(JString(text)) => c.schemaFromText(text)
    case Some(JOther(json)) => c.schemaFromJson(json)
  }

  ghost predicate SomeIdTaken(c: Cedar, r: PolicyRecord, policies: map<string, Statement>) {
    exists i :: 0 <= i < |StatementsOf(c, r)| && ScopedId(r.id, i) in policies
  }

  lemma ChecksInOrder(c: Cedar, r: PolicyRecord, a: Acc)
    ensures var schema := if a.schema.Some? then a.schema else OwnSchema(c, r);
            Checks(c, r, a) == if !TextAccepted(c, r) then Err(PolicyParse)
                               else if a.schema.None? && r.schemaJson.Some? && OwnSchema(c, r).None? then Err(SchemaParse)
                               else if r.entitiesJson.Some? && c.parseEntities(r.entitiesJson.value, schema).None? then Err(EntitiesParse)
                               else Ok((StatementsOf(c, r), schema))
  {
    StagedExactly(c, r);
  }

  lemma AddedUnlessTaken(c: Cedar, r: PolicyRecord, policies: map<string, Statement>)
    ensures AddFrom(policies, r.id, StatementsOf(c, r), 0).1 <==> !SomeIdTaken(c, r, policies)
  {
    AddedFrom(policies, r.id, StatementsOf(c, r), 0);
  }

  /** What becomes of a row, in the order of the checks: its text, its schema, its entities, and ids already taken. */
  lemma RowVerdict(c: Cedar, r: PolicyRecord, a: Acc)
    ensures var schema := if a.schema.Some? then a.schema else OwnSchema(c, r);
            var (a', verdict) := Merge(c, r, a);
            if !TextAccepted(c, r) then verdict == Err(PolicyParse) && a' == a
            else if a.schema.None? && r.schemaJson.Some? && OwnSchema(c, r).None? then verdict == Err(SchemaParse) && a' == a
            else if r.entitiesJson.Some? && c.parseEntities(r.entitiesJson.value, schema).None? then
              verdict == Err(EntitiesParse) && a' == a
            else if SomeIdTaken(c, r, a.policies) then verdict == Err(PolicyParse)
            else verdict == Ok(()) && a'.schema == schema && a'.entities == if a.entities.Some? then a.entities else r.entitiesJson
  {
    ChecksInOrder(c, r, a);
    AddedUnlessTaken(c, r, a.policies);
  }

  /** The strict build fails with its first failing row, on what the rows before it built. */
  lemma {:induction false} StrictFailsAtItsFirstFailingRow(c: Cedar, a: Acc, rows: seq<PolicyRecord>) returns (i: nat)
    requires StrictFrom(c, a, rows).Err?
    ensures i < |rows| && StrictFrom(c, a, rows[..i]).Ok?
    ensures Merge(c, rows[i], StrictFrom(c, a, rows[..i]).value).1 == Err(StrictFrom(c, a, rows).error)
    decreases |rows|
  {
    if Merges(c, rows[0], a) {
      i := StrictFailsAtItsFirstFailingRow(c, Merge(c, rows[0], a).0, rows[1..]);
      i := i + 1;
      assert rows[..i][0] == rows[0] && rows[..i][1..] == rows[1..][..i - 1];
    } else {
      i := 0;
      assert rows[..0] == [];
    }
  }

  function TotalStatements(c: Cedar, rows: seq<PolicyRecord>): nat {
    if rows == [] then 0 else TotalStatements(c, rows[..|rows| - 1]) + |StatementsOf(c, rows[|rows| - 1])|
  }

  /** Statement `i` of some row of `rows` is `v` and its scoped id is `k`. */
  ghost predicate Supplies(c: Cedar, rows: seq<PolicyRecord>, k: string, v: Statement) {
    exists r, i :: r in rows && 0 <= i < |StatementsOf(c, r)| && k == ScopedId(r.id, i) && v == StatementsOf(c, r)[i]
  }

  lemma {:induction false} MergedPolicies(c: Cedar, rows: seq<PolicyRecord>, a: Acc)
    requires StrictFrom(c, NOTHING, rows) == Ok(a)
    ensures |a.policies| == TotalStatements(c, rows)
    ensures forall k, v :: (k in a.policies && a.policies[k] == v) <==> Supplies(c, rows, k, v)
    decreases |rows|
  {
    if rows != [] {
      var front, r := rows[..|rows| - 1], rows[|rows| - 1];
      assert rows == front + [r];
      StrictSnoc(c, NOTHING, front, r);
      var b := StrictFrom(c, NOTHING, front).value;
      MergedPolicies(c, front, b);
      AddedFrom(b.policies, r.id, StatementsOf(c, r), 0);
      forall k, v ensures (k in a.policies && a.policies[k] == v) <==> Supplies(c, rows, k, v) {
        OneMoreRowSupplies(c, front, r, b.policies, a.policies, k, v);
      }
    }
  }

  lemma OneMoreRowSupplies(c: Cedar, front: seq<PolicyRecord>, r: PolicyRecord, b: map<string, Statement>,
                           p: map<string, Statement>, k: string, v: Statement)
    requires (p, true) == AddFrom(b, r.id, StatementsOf(c, r), 0)
    requires (k in b && b[k] == v) <==> Supplies(c, front, k, v)
    ensures (k in p && p[k] == v) <==> Supplies(c, front + [r], k, v)
  {
    var stmts := StatementsOf(c, r);
    AddedFrom(b, r.id, stmts, 0);
    if Supplies(c, front + [r], k, v) {
      var r', i :| r' in front + [r] && 0 <= i < |StatementsOf(c, r')| && k == ScopedId(r'.id, i) && v == StatementsOf(c, r')[i];
      if r' in front {
        assert Supplies(c, front, k, v);
      }
    }
    if k in p && p[k] == v {
      if k in b {
        var r', i :| r' in front && 0 <= i < |StatementsOf(c, r')| && k == ScopedId(r'.id, i) && v == StatementsOf(c, r')[i];
        assert r' in front + [r];
      } else {
        assert r in front + [r];
      }
    }
  }

  lemma {:induction false} StrictSnoc(c: Cedar, a: Acc, rows: seq<PolicyRecord>, r: PolicyRecord)
    ensures StrictFrom(c, a, rows + [r]).Ok?
            ==> StrictFrom(c, a, rows).Ok? && Merges(c, r, StrictFrom(c, a, rows).value)
                && StrictFrom(c, a, rows + [r]).value == Merge(c, r, StrictFrom(c, a, rows).value).0
    decreases |rows|
  {
    if rows == [] {
      assert rows + [r] == [r] && [r][1..] == [];
    } else {
      assert (rows + [r])[1..] == rows[1..] + [r];
      StrictSnoc(c, Merge(c, rows[0], a).0, rows[1..], r);
    }
  }

  /** The lenient policy set is the survivors' statements under their scoped ids, no more, fewer or renamed. */
  lemma BundlePolicies(c: Cedar, rows: seq<PolicyRecord>)
    ensures |FromRecordsLenient(c, rows).policies| == TotalStatements(c, Survivors(c, rows))
    ensures var p := FromRecordsLenient(c, rows).policies;
            forall k, v :: (k in p && p[k] == v) <==> Supplies(c, Survivors(c, rows), k, v)
  {
    StrictOverSurvivors(c, NOTHING, rows);
    MergedPolicies(c, Survivors(c, rows), LenientFrom(c, NOTHING, rows));
  }

  ghost predicate DistinctIds(rows: seq<PolicyRecord>) {
    forall i, j | 0 <= i < j < |rows| :: rows[i].id != rows[j].id
  }

  /** A row whose id no earlier survivor bears finds all its scoped ids free. */
  lemma FreshIdIsFree(c: Cedar, kept: seq<PolicyRecord>, a: Acc, r: PolicyRecord)
    requires StrictFrom(c, NOTHING, kept) == Ok(a)
    requires forall x | x in kept :: x.id != r.id
    ensures forall j: nat :: ScopedId(r.id, j) !in a.policies
  {
    MergedPolicies(c, kept, a);
    forall j: nat ensures ScopedId(r.id, j) !in a.policies {
      if ScopedId(r.id, j) in a.policies {
        assert Supplies(c, kept, ScopedId(r.id, j), a.policies[ScopedId(r.id, j)]);
        var x, i :| x in kept && 0 <= i < |StatementsOf(c, x)| && ScopedId(r.id, j) == ScopedId(x.id, i);
        ScopedIdInjective(r.id, j, x.id, i);
      }
    }
  }

  lemma {:induction false} SurvivorsAreIntrinsic(c: Cedar, rows: seq<PolicyRecord>)
    requires DistinctIds(rows) && forall r | r in rows :: r.schemaJson.None?
    ensures LenientFrom(c, NOTHING, rows).schema.None?
    ensures forall r :: r in Survivors(c, rows) <==> r in rows && Checks(c, r, NOTHING).Ok?
    decreases |rows|
  {
    if rows != [] {
      var front, r := rows[..|rows| - 1], rows[|rows| - 1];
      assert rows == front + [r];
      assert forall x :: x in rows <==> x in front || x == r;
      SurvivorsAreIntrinsic(c, front);
      LenientSnoc(c, NOTHING, front, r);
      StrictOverSurvivors(c, NOTHING, front);
      var a := LenientFrom(c, NOTHING, front);
      forall x | x in Survivors(c, front) ensures x.id != r.id {
        assert x in front;
        var k :| 0 <= k < |front| && front[k] == x;
        assert rows[k].id != rows[|rows| - 1].id;
      }
      FreshIdIsFree(c, Survivors(c, front), a, r);
      MergesWhenFree(c, r, a);
    }
  }

  lemma MergesWhenFree(c: Cedar, r: PolicyRecord, a: Acc)
    requires a.schema.None? && r.schemaJson.None?
    requires forall j: nat :: ScopedId(r.id, j) !in a.policies
    ensures Merges(c, r, a) <==> Checks(c, r, NOTHING).Ok?
    ensures Merge(c, r, a).0.schema.None?
  {
    assert Checks(c, r, a) == Checks(c, r, NOTHING);
    AddedFrom(a.policies, r.id, StatementsOf(c, r), 0);
  }

  /** Rows with distinct ids and no schema: the policy set does not depend on the order they are stored in. */
  lemma PoliciesIgnoreRowOrder(c: Cedar, rows: seq<PolicyRecord>, other: seq<PolicyRecord>)
    requires multiset(rows) == multiset(other)
    requires DistinctIds(rows) && DistinctIds(other) && forall r | r in rows :: r.schemaJson.None?
    ensures FromRecordsLenient(c, rows).policies == FromRecordsLenient(c, other).policies
  {
    forall r ensures r in rows <==> r in other {
      assert r in rows <==> r in multiset(rows);
      assert r in other <==> r in multiset(other);
    }
    SurvivorsAreIntrinsic(c, rows);
    SurvivorsAreIntrinsic(c, other);
    BundlePolicies(c, rows);
    BundlePolicies(c, other);
    var p, q := FromRecordsLenient(c, rows).policies, FromRecordsLenient(c, other).policies;
    forall k | k in p || k in q ensures k in p && k in q && p[k] == q[k] {
      var v := if k in p then p[k] else q[k];
      assert Supplies(c, Survivors(c, rows), k, v) || Supplies(c, Survivors(c, other), k, v);
      var r, i :| (r in Survivors(c, rows) || r in Survivors(c, other)) && 0 <= i < |StatementsOf(c, r)|
                  && k == ScopedId(r.id, i) && v == StatementsOf(c, r)[i];
      assert Supplies(c, Survivors(c, rows), k, v) && Supplies(c, Survivors(c, other), k, v);
    }
  }

  // ---- the empty-entities fallback ------------------------------------------------------

  /** The position of the first row with an entities blob, or the length. */
  function FirstBlob(rows: seq<PolicyRecord>): (i: nat)
    ensures i <= |rows| && (i < |rows| ==> rows[i].entitiesJson.Some?)
    ensures forall j | 0 <= j < i :: rows[j].entitiesJson.None?
  {
    if rows == [] || rows[0].entitiesJson.Some? then 0 else 1 + FirstBlob(rows[1..])
  }

  /** The position of the first row with a schema, or the length. */
  function FirstSchema(rows: seq<PolicyRecord>): (i: nat)
    ensures i <= |rows| && (i < |rows| ==> rows[i].schemaJson.Some?)
    ensures forall j | 0 <= j < i :: rows[j].schemaJson.None?
  {
    if rows == [] || rows[0].schemaJson.Some? then 0 else 1 + FirstSchema(rows[1..])
  }

  lemma FirstSchemaMore(front: seq<PolicyRecord>, r: PolicyRecord)
    ensures FirstSchema(front + [r]) == if FirstSchema(front) < |front| then FirstSchema(front)
                                        else if r.schemaJson.Some? then |front| else |front| + 1
  {
    var rows, i, j := front + [r], FirstSchema(front), FirstSchema(front + [r]);
    assert rows[|front|] == r && forall k | 0 <= k < |front| :: rows[k] == front[k];
    assert i < |front| ==> rows[i].schemaJson.Some?;
    assert j < |front| ==> front[j].schemaJson.Some?;
  }

  lemma FirstBlobMore(front: seq<PolicyRecord>, r: PolicyRecord)
    ensures FirstBlob(front + [r]) == if FirstBlob(front) < |front| then FirstBlob(front)
                                      else if r.entitiesJson.Some? then |front| else |front| + 1
  {
    var rows, i, j := front + [r], FirstBlob(front), FirstBlob(front + [r]);
    assert rows[|front|] == r && forall k | 0 <= k < |front| :: rows[k] == front[k];
    assert i < |front| ==> rows[i].entitiesJson.Some?;
    assert j < |front| ==> front[j].entitiesJson.Some?;
  }

  /** The first survivor with a schema supplies it, the first with a blob supplies that; both were checked on the way. */
  lemma {:induction false} WhatWins(c: Cedar, rows: seq<PolicyRecord>, a: Acc)
    requires StrictFrom(c, NOTHING, rows) == Ok(a)
    ensures a.schema == if FirstSchema(rows) < |rows| then ParseSchema(c, rows[FirstSchema(rows)].schemaJson.value) else None
    ensures FirstSchema(rows) < |rows| ==> a.schema.Some?
    ensures a.entities == if FirstBlob(rows) < |rows| then rows[FirstBlob(rows)].entitiesJson else None
    ensures !(FirstBlob(rows) < FirstSchema(rows) < |rows|) ==> BuildEntities(c, a.entities, a.schema).Some?
    decreases |rows|
  {
    if rows != [] {
      var front, r := rows[..|rows| - 1], rows[|rows| - 1];
      assert rows == front + [r];
      StrictSnoc(c, NOTHING, front, r);
      WhatWins(c, front, StrictFrom(c, NOTHING, front).value);
      FirstSchemaMore(front, r);
      FirstBlobMore(front, r);
    }
  }

  /**
    The lenient build falls back to the empty store exactly when the first surviving blob
    comes strictly before the surviving row that supplied the schema and does not parse under it.
   */
  lemma FallbackExactly(c: Cedar, rows: seq<PolicyRecord>)
    ensures var a, kept := LenientFrom(c, NOTHING, rows), Survivors(c, rows);
            BuildEntities(c, a.entities, a.schema).None?
            <==> FirstBlob(kept) < FirstSchema(kept) < |kept|
                 && c.parseEntities(kept[FirstBlob(kept)].entitiesJson.value,
                                    ParseSchema(c, kept[FirstSchema(kept)].schemaJson.value)).None?
  {
    StrictOverSurvivors(c, NOTHING, rows);
    WhatWins(c, Survivors(c, rows), LenientFrom(c, NOTHING, rows));
  }

  /** Schema and store of the lenient build, from the first surviving row that has the one or the other. */
  lemma BundleSchemaAndStore(c: Cedar, rows: seq<PolicyRecord>)
    ensures var kept, b := Survivors(c, rows), FromRecordsLenient(c, rows);
            && b.schema == (if FirstSchema(kept) < |kept| then OwnSchema(c, kept[FirstSchema(kept)]) else None)
            && b.entities == if FirstBlob(kept) == |kept| then c.emptyStore
                             else match c.parseEntities(kept[FirstBlob(kept)].entitiesJson.value, b.schema)
                                  case Some(store) => store
                                  case None => c.emptyStore
  {
    StrictOverSurvivors(c, NOTHING, rows);
    WhatWins(c, Survivors(c, rows), LenientFrom(c, NOTHING, rows));
  }

  /** It does happen: each row is acceptable when it is read, and the pair is not. */
  lemma FallbackIsReachable() returns (c: Cedar, rows: seq<PolicyRecord>)
    ensures Survivors(c, rows) == rows
    ensures FromRecords(c, rows) == Err(EntitiesParse)
    ensures FromRecordsLenient(c, rows).entities == c.emptyStore
  {
    c := Cedar(_ => Some([]), _ => true, s => Some(s), s => Some(s),
               (_, schema: Option<Schema>) => if schema.None? then Some("users") else None, "");
    var blob := PolicyRecord("a", "", None, Some(JOther("[]")));
    var schema := PolicyRecord("b", "", Some(JString("entity User;")), None);
    rows := [blob, schema];
    assert rows[1..] == [schema] && [schema][1..] == [];
    var a1 := Acc(map[], None, Some(JOther("[]")));
    var a2 := Acc(map[], Some("entity User;"), Some(JOther("[]")));
    assert Checks(c, blob, NOTHING) == Ok(([], None));
    assert Merge(c, blob, NOTHING) == (a1, Ok(()));
    assert Checks(c, schema, a1) == Ok(([], Some("entity User;")));
    assert Merge(c, schema, a1) == (a2, Ok(()));
    assert StrictFrom(c, a1, [schema]) == Ok(a2);
    StrictSucceedsWhenAllSurvive(c, NOTHING, rows);
  }
}
