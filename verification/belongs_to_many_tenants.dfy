/**
 * `HipsterJazzbo\Landlord\Scopes\BelongsToManyTenants`: a scope that filters through a
 * polymorphic pivot table on every id the manager holds.
 */
module BelongsToManyTenants {
  import opened Wrappers
  import opened Php
  import opened PhpArray
  import opened Eloquent
  import TenantManager
  import BelongsToTenants

  /** The related class the relation is always built against. */
  const TenantModelClass: string := "App\\Tenant"

  /**
   * The morph-relation settings `apply` uses: `array_merge` of the configured
   * `default_morph_relation` and the model's truthy entries, so here the model's
   * entries win over the configuration.
   */
  function MorphRelation(defaults: Arr<Value>, m: Model): (r: Arr<Value>)
    ensures forall k :: MorphEntry(m, k).Some? ==> Get(r, k) == MorphEntry(m, k)
    ensures forall k :: MorphEntry(m, k).None? ==> Get(r, k) == Get(defaults, k)
  {
    var own := if m.morphRelation.Some? && |m.morphRelation.value| > 0 then FilteredMorphRelation(m) else [];
    Merge(defaults, own)
  }

  /** Without morph-relation settings of its own, a model gets the configured ones unchanged. */
  lemma NoOwnSettingsGivesDefaults(defaults: Arr<Value>, m: Model)
    requires m.morphRelation.None? || m.morphRelation == Some([])
    ensures MorphRelation(defaults, m) == defaults
  {
  }

  /** A falsy entry of the model's own settings leaves the configured value in place. */
  lemma FalsyEntryKeepsDefault(defaults: Arr<Value>, m: Model, k: string)
    requires m.morphRelation.Some? && Get(m.morphRelation.value, k).Some? && !Truthy(Get(m.morphRelation.value, k).value)
    ensures Get(MorphRelation(defaults, m), k) == Get(defaults, k)
  {
  }

  /** A missing setting reads as null. */
  function Setting(a: Arr<Value>, k: string): Value {
    Get(a, k).GetOr(Null)
  }

  /**
   * What `apply` builds: `morphToMany(related, name)` with `wherePivotIn(column, ids)`.
   * The second argument of `morphToMany` is the morph name, from which Eloquent derives
   * the pivot table and its `{name}_id`/`{name}_type` columns; the scope passes its
   * `table` setting there.
   */
  datatype PivotQuery = PivotQuery(related: string, morphName: Value, filter: Where)

  /**
   * `apply`: the `table` setting is the morph name, the pivot column is
   * `"{table}.{tenant_id_column}"` from the merged settings,
   * and the id list is every id in the manager's collection, in order, whatever
   * columns the model declares.
   */
  function Apply(mgr: TenantManager.Manager, defaults: Arr<Value>, m: Model): (r: PivotQuery)
    ensures r.related == "App\\Tenant"
    ensures r.morphName == Setting(MorphRelation(defaults, m), "table")
    ensures r.filter.In? && r.filter.boolean == And
    ensures r.filter.column ==
      Render(Setting(MorphRelation(defaults, m), "table")) + "." + Render(Setting(MorphRelation(defaults, m), "tenant_id_column"))
    ensures |r.filter.values| == |mgr.tenants|
    ensures forall i :: 0 <= i < |mgr.tenants| ==> r.filter.values[i] == mgr.tenants[i].1
  {
    var mr := MorphRelation(defaults, m);
    var table := Setting(mr, "table");
    PivotQuery(TenantModelClass, table, In(Render(table) + "." + Render(Setting(mr, "tenant_id_column")), Values(mgr.tenants), And))
  }

  /** The model's declared tenant columns play no part in the pivot filter. */
  lemma ApplyIgnoresTenantColumns(mgr: TenantManager.Manager, defaults: Arr<Value>, m: Model, cols: Option<Columns>)
    ensures Apply(mgr, defaults, m.(tenantColumns := cols)) == Apply(mgr, defaults, m)
  {
    assert forall k :: MorphEntry(m.(tenantColumns := cols), k) == MorphEntry(m, k);
    assert MorphRelation(defaults, m.(tenantColumns := cols)) == MorphRelation(defaults, m);
  }

  /**
   * The two ways of combining the settings disagree exactly where both sides set a key:
   * the trait's union keeps the configured value, the scope's merge takes the model's.
   */
  lemma UnionAndMergeDisagree(defaults: Arr<Value>, m: Model, k: string)
    requires Get(defaults, k).Some? && MorphEntry(m, k).Some?
    ensures Get(BelongsToTenants.MorphRelationConfiguration(defaults, m), k) == Get(defaults, k)
    ensures Get(MorphRelation(defaults, m), k) == MorphEntry(m, k)
  {
  }

  /** Where only one side sets a key, both combinations agree. */
  lemma UnionAndMergeAgree(defaults: Arr<Value>, m: Model, k: string)
    requires Get(defaults, k).None? || MorphEntry(m, k).None?
    ensures Get(BelongsToTenants.MorphRelationConfiguration(defaults, m), k) == Get(MorphRelation(defaults, m), k)
  {
  }
}
