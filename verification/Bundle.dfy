/**
  Building a Cedar bundle from stored policy rows: the strict and the lenient fold as
  functions on accumulator values. Cedar itself is a parameter.
 */
module Bundle {
  import opened Wrappers
  import opened Numbers

  type Statement = string
  type Schema = string
  type Store = string

  /** A JSON value: a string literal, or anything else. */
  datatype Json = JString(text: string) | JOther(serialized: string)

  /** The Cedar entry points a build calls; `None` stands for a parse error. */
  datatype Cedar = Cedar(
    parsePolicies: string -> Option<seq<Statement>>,
    acceptsId: string -> bool,
    schemaFromText: string -> Option<Schema>,
    schemaFromJson: string -> Option<Schema>,
    parseEntities: (Json, Option<Schema>) -> Option<Store>,
    emptyStore: Store)

  datatype BuildError = PolicyParse | SchemaParse | EntitiesParse

  datatype PolicyRecord = PolicyRecord(
    id: string, policyText: string, schemaJson: Option<Json>, entitiesJson: Option<Json>)

  /** What the fold carries: the merged policies by scoped id, the schema, and the entities blob. */
  datatype Acc = Acc(policies: map<string, Statement>, schema: Option<Schema>, entities: Option<Json>)

  datatype CedarBundle = CedarBundle(policies: map<string, Statement>, schema: Option<Schema>, entities: Store)

  const NOTHING := Acc(map[], None, None)

  // ---- scoped ids ---------------------------------------------------------------------

  function ScopedId(id: string, idx: nat): string {
    id + "#" + Decimal(idx)
  }

  lemma LastHash(id: string, i: nat, k: nat)
    requires k < |ScopedId(id, i)| && ScopedId(id, i)[k] == '#'
    ensures k <= |id|
  {
  }

  /** Row ids may contain `#` themselves: the last one still separates the index. */
  lemma ScopedIdInjective(id1: string, i1: nat, id2: string, i2: nat)
    ensures ScopedId(id1, i1) == ScopedId(id2, i2) <==> id1 == id2 && i1 == i2
  {
    var a, b := ScopedId(id1, i1), ScopedId(id2, i2);
    if a == b {
      assert a[|id1|] == '#' && b[|id2|] == '#';
      LastHash(id1, i1, |id2|);
      LastHash(id2, i2, |id1|);
      assert a[..|id1|] == id1 && b[..|id2|] == id2;
      assert a[|id1| + 1..] == Decimal(i1) && b[|id2| + 1..] == Decimal(i2);
      DecimalInjective(i1, i2);
    }
  }

  // ---- one row ------------------------------------------------------------------------

  function ParseSchema(c: Cedar, v: Json): Option<Schema> {
    match v
    case JString(src) => c.schemaFromText(src)
    case JOther(src) => c.schemaFromJson(src)
  }

  /** The row's statements, once the text parses and every scoped id is accepted. */
  function Staged(c: Cedar, r: PolicyRecord): Option<seq<Statement>> {
    match c.parsePolicies(r.policyText)
    case None => None
    case Some(stmts) => if forall i | 0 <= i < |stmts| :: c.acceptsId(ScopedId(r.id, i)) then Some(stmts) else None
  }

  /** The schema in force after the row, if its own schema (needed only while there is none) parses. */
  function EffectiveSchema(c: Cedar, r: PolicyRecord, schema: Option<Schema>): Option<Option<Schema>> {
    if schema.None? && r.schemaJson.Some? then
      match ParseSchema(c, r.schemaJson.value)
      case None => None
      case Some(s) => Some(Some(s))
    else Some(schema)
  }

  /** Adding statements `i..` one by one under their scoped ids: stops at the first id already taken. */
  function AddFrom(policies: map<string, Statement>, id: string, stmts: seq<Statement>, i: nat)
    : (map<string, Statement>, bool)
    requires i <= |stmts|
    decreases |stmts| - i
  {
    if i == |stmts| then (policies, true)
    else if ScopedId(id, i) in policies then (policies, false)
    else AddFrom(policies[ScopedId(id, i) := stmts[i]], id, stmts, i + 1)
  }

  /** The three checks that come before anything is committed. */
  function Checks(c: Cedar, r: PolicyRecord, a: Acc): Result<(seq<Statement>, Option<Schema>), BuildError> {
    if Staged(c, r).None? then Err(PolicyParse)
    else if EffectiveSchema(c, r, a.schema).None? then Err(SchemaParse)
    else
      var schema := EffectiveSchema(c, r, a.schema).value;
      if r.entitiesJson.Some? && c.parseEntities(r.entitiesJson.value, schema).None? then Err(EntitiesParse)
      else Ok((Staged(c, r).value, schema))
  }

  /** One row merged: the accumulators afterwards, also when the row fails half-way through its commit. */
  function Merge(c: Cedar, r: PolicyRecord, a: Acc): (Acc, Result<(), BuildError>) {
    match Checks(c, r, a)
    case Err(e) => (a, Err(e))
    case Ok((stmts, schema)) =>
      var (policies, added) := AddFrom(a.policies, r.id, stmts, 0);
      if !added then (a.(policies := policies), Err(PolicyParse))
      else (Acc(policies, schema, if a.entities.None? then r.entitiesJson else a.entities), Ok(()))
  }

  predicate Merges(c: Cedar, r: PolicyRecord, a: Acc) {
    Merge(c, r, a).1.Ok?
  }

  lemma {:induction false} AddedFrom(policies: map<string, Statement>, id: string, stmts: seq<Statement>, i: nat)
    requires i <= |stmts|
    ensures var (p, added) := AddFrom(policies, id, stmts, i);
            && (added <==> forall j | i <= j < |stmts| :: ScopedId(id, j) !in policies)
            && (forall k | k in policies :: k in p && p[k] == policies[k])
            && (added ==> forall k | k in p && k !in policies :: exists j :: i <= j < |stmts| && k == ScopedId(id, j))
            && (added ==> forall j | i <= j < |stmts| :: ScopedId(id, j) in p && p[ScopedId(id, j)] == stmts[j])
            && (added ==> |p| == |policies| + |stmts| - i)
            && (p != policies <==> i < |stmts| && ScopedId(id, i) !in policies)
    decreases |stmts| - i
  {
    if i < |stmts| && ScopedId(id, i) !in policies {
      var more := policies[ScopedId(id, i) := stmts[i]];
      assert more.Keys == policies.Keys + {ScopedId(id, i)};
      assert |more| == |more.Keys| && |policies| == |policies.Keys|;
      AddedFrom(more, id, stmts, i + 1);
      forall j | i < j < |stmts| ensures ScopedId(id, j) in more <==> ScopedId(id, j) in policies {
        ScopedIdInjective(id, i, id, j);
      }
      assert ScopedId(id, i) in AddFrom(more, id, stmts, i + 1).0;
    }
  }

  /** A failing merge on arbitrary accumulators is half-committed exactly when only a later scoped id is taken. */
  lemma HalfCommitExactly(c: Cedar, r: PolicyRecord, a: Acc)
    ensures !Merges(c, r, a) && Merge(c, r, a).0 != a
            <==> && Checks(c, r, a).Ok?
                 && ScopedId(r.id, 0) !in a.policies
                 && exists j :: 0 < j < |Checks(c, r, a).value.0| && ScopedId(r.id, j) in a.policies
  {
    if Checks(c, r, a).Ok? {
      AddedFrom(a.policies, r.id, Checks(c, r, a).value.0, 0);
    }
  }

  /** Whenever some statement of a row id is present, its statement 0 is. */
  ghost predicate FromZero(policies: map<string, Statement>) {
    forall id: string, j: nat :: ScopedId(id, j) in policies ==> ScopedId(id, 0) in policies
  }

  /** On accumulators built by merging rows, a row that fails leaves all three untouched. */
  lemma MergeIsAllOrNothing(c: Cedar, r: PolicyRecord, a: Acc)
    requires FromZero(a.policies)
    ensures FromZero(Merge(c, r, a).0.policies)
    ensures !Merges(c, r, a) ==> Merge(c, r, a).0 == a
  {
    if Checks(c, r, a).Ok? {
      var stmts := Checks(c, r, a).value.0;
      AddedFrom(a.policies, r.id, stmts, 0);
      var p := Merge(c, r, a).0.policies;
      if Merges(c, r, a) {
        forall id: string, j: nat | ScopedId(id, j) in p ensures ScopedId(id, 0) in p {
          if ScopedId(id, j) !in a.policies {
            var k :| 0 <= k < |stmts| && ScopedId(id, j) == ScopedId(r.id, k);
            ScopedIdInjective(id, j, r.id, k);
          }
        }
      }
    }
  }

  // ---- the folds ----------------------------------------------------------------------

  /** The strict fold: the first row that fails ends it. */
  function StrictFrom(c: Cedar, a: Acc, rows: seq<PolicyRecord>): Result<Acc, BuildError>
    decreases |rows|
  {
    if rows == [] then Ok(a)
    else
      var (a', r) := Merge(c, rows[0], a);
      if r.Err? then Err(r.error) else StrictFrom(c, a', rows[1..])
  }

  /** The lenient fold: a row that fails is discarded with whatever it did to its copies. */
  function LenientFrom(c: Cedar, a: Acc, rows: seq<PolicyRecord>): Acc
    decreases |rows|
  {
    if rows == [] then a
    else LenientFrom(c, if Merges(c, rows[0], a) then Merge(c, rows[0], a).0 else a, rows[1..])
  }

  /** The rows the lenient fold keeps. */
  function SurvivorsFrom(c: Cedar, a: Acc, rows: seq<PolicyRecord>): seq<PolicyRecord>
    decreases |rows|
  {
    if rows == [] then []
    else if Merges(c, rows[0], a) then [rows[0]] + SurvivorsFrom(c, Merge(c, rows[0], a).0, rows[1..])
    else SurvivorsFrom(c, a, rows[1..])
  }

  function BuildEntities(c: Cedar, blob: Option<Json>, schema: Option<Schema>): Option<Store> {
    match blob
    case Some(v) => c.parseEntities(v, schema)
    case None => Some(c.emptyStore)
  }

  function FromRecords(c: Cedar, rows: seq<PolicyRecord>): Result<CedarBundle, BuildError> {
    match StrictFrom(c, NOTHING, rows)
    case Err(e) => Err(e)
    case Ok(a) =>
      match BuildEntities(c, a.entities, a.schema)
      case None => Err(EntitiesParse)
      case Some(store) => Ok(CedarBundle(a.policies, a.schema, store))
  }

  function FromRecordsLenient(c: Cedar, rows: seq<PolicyRecord>): CedarBundle {
    var a := LenientFrom(c, NOTHING, rows);
    match BuildEntities(c, a.entities, a.schema)
    case None => CedarBundle(a.policies, a.schema, c.emptyStore)
    case Some(store) => CedarBundle(a.policies, a.schema, store)
  }

  function Survivors(c: Cedar, rows: seq<PolicyRecord>): seq<PolicyRecord> {
    SurvivorsFrom(c, NOTHING, rows)
  }
}
