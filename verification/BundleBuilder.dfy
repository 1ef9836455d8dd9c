/** The bundle builds as loops over mutable accumulators. */
module BundleBuilder {
  import opened Wrappers
  import opened Numbers
  import opened Bundle

  /** The three `&mut` accumulators a row is merged into. */
  class Accumulators {
    var policySet: map<string, Statement>
    var schema: Option<Schema>
    var entitiesValue: Option<Json>

    constructor ()
      ensures Value() == NOTHING
    {
      policySet, schema, entitiesValue := map[], None, None;
    }

    constructor Copy(from: Accumulators)
      ensures Value() == from.Value()
    {
      policySet, schema, entitiesValue := from.policySet, from.schema, from.entitiesValue;
    }

    function Value(): Acc
      reads this
    {
      Acc(policySet, schema, entitiesValue)
    }
  }

  /** The statements of the row under checked ids, or `None` when the text or an id is refused. */
  method Stage(c: Cedar, record: PolicyRecord) returns (staged: Option<seq<(string, Statement)>>)
    ensures staged.Some? <==> Staged(c, record).Some?
    ensures staged.Some? ==> |staged.value| == |Staged(c, record).value|
                             && forall i | 0 <= i < |staged.value| ::
                                  staged.value[i] == (ScopedId(record.id, i), Staged(c, record).value[i])
  {
    var parsed := c.parsePolicies(record.policyText);
    if parsed.None? {
      return None;
    }
    var out := [];
    for i := 0 to |parsed.value|
      invariant |out| == i
      invariant forall j | 0 <= j < i :: c.acceptsId(ScopedId(record.id, j))
                                         && out[j] == (ScopedId(record.id, j), parsed.value[j])
    {
      var id := record.id + "#" + Decimal(i);
      assert id == ScopedId(record.id, i);
      if !c.acceptsId(id) {
        return None;
      }
      out := out + [(id, parsed.value[i])];
    }
    staged := Some(out);
  }

  method MergeRecord(c: Cedar, record: PolicyRecord, acc: Accumulators) returns (r: Result<(), BuildError>)
    modifies acc
    ensures (acc.Value(), r) == Merge(c, record, old(acc.Value()))
  {
    var staged := Stage(c, record);
    if staged.None? {
      return Err(PolicyParse);
    }
    var parsedSchema := None;
    if acc.schema.None? && record.schemaJson.Some? {
      parsedSchema := ParseSchema(c, record.schemaJson.value);
      if parsedSchema.None? {
        return Err(SchemaParse);
      }
    }
    var effectiveSchema := if parsedSchema.Some? then parsedSchema else acc.schema;
    if record.entitiesJson.Some? {
      if c.parseEntities(record.entitiesJson.value, effectiveSchema).None? {
        return Err(EntitiesParse);
      }
    }
    ghost var stmts := Staged(c, record).value;
    for i := 0 to |staged.value|
      invariant acc.schema == old(acc.schema) && acc.entitiesValue == old(acc.entitiesValue)
      invariant AddFrom(acc.policySet, record.id, stmts, i) == AddFrom(old(acc.policySet), record.id, stmts, 0)
    {
      var (id, policy) := staged.value[i];
      if id in acc.policySet {
        return Err(PolicyParse);
      }
      acc.policySet := acc.policySet[id := policy];
    }
    if parsedSchema.Some? {
      acc.schema := parsedSchema;
    }
    if acc.entitiesValue.None? && record.entitiesJson.Some? {
      acc.entitiesValue := record.entitiesJson;
    }
    r := Ok(());
  }

  method FromRecords(c: Cedar, records: seq<PolicyRecord>) returns (bundle: Result<CedarBundle, BuildError>)
    ensures bundle == Bundle.FromRecords(c, records)
  {
    var acc := new Accumulators();
    for i := 0 to |records|
      invariant StrictFrom(c, NOTHING, records) == StrictFrom(c, acc.Value(), records[i..])
    {
      assert records[i..][0] == records[i] && records[i..][1..] == records[i + 1..];
      var merged := MergeRecord(c, records[i], acc);
      if merged.Err? {
        return Err(merged.error);
      }
    }
    var entities := BuildEntities(c, acc.entitiesValue, acc.schema);
    if entities.None? {
      return Err(EntitiesParse);
    }
    bundle := Ok(CedarBundle(acc.policySet, acc.schema, entities.value));
  }

  method FromRecordsLenient(c: Cedar, records: seq<PolicyRecord>) returns (bundle: CedarBundle)
    ensures bundle == Bundle.FromRecordsLenient(c, records)
  {
    var acc := new Accumulators();
    for i := 0 to |records|
      invariant LenientFrom(c, NOTHING, records) == LenientFrom(c, acc.Value(), records[i..])
    {
      assert records[i..][0] == records[i] && records[i..][1..] == records[i + 1..];
      var candidate := new Accumulators.Copy(acc);
      var merged := MergeRecord(c, records[i], candidate);
      if merged.Ok? {
        acc := candidate;
      }
    }
    var entities := BuildEntities(c, acc.entitiesValue, acc.schema);
    bundle := CedarBundle(acc.policySet, acc.schema, if entities.Some? then entities.value else c.emptyStore);
  }
}
