/**
 * The instance side of the `BelongsToTenants` model trait: which tenant columns a
 * model declares, and how its morph-relation settings combine with the configured ones.
 */
module BelongsToTenants {
  import opened Wrappers
  import opened Php
  import opened PhpArray
  import opened Eloquent

  /** `landlord.default_tenant_columns` as shipped. */
  const DefaultTenantColumns: seq<string> := ["company_id"]

  /** `getTenantColumns`: the model's `$tenantColumns` when set, else the configured default. */
  function TenantColumns(m: Model): (cs: seq<string>)
    ensures m.tenantColumns.None? ==> cs == ["company_id"]
    ensures m.tenantColumns.Some? ==> cs == ColumnList(m.tenantColumns.value)
  {
    DeclaredColumns(m, DefaultTenantColumns)
  }

  /**
   * `getTenantMorphRelationConfiguration`: the array union of the configured
   * `default_morph_relation` and the model's truthy entries, so configured keys win and
   * the model only fills keys the configuration lacks.
   */
  function MorphRelationConfiguration(defaults: Arr<Value>, m: Model): (r: Arr<Value>)
    ensures forall k :: Get(defaults, k).Some? ==> Get(r, k) == Get(defaults, k)
    ensures forall k :: Get(defaults, k).None? ==> Get(r, k) == MorphEntry(m, k)
    ensures |defaults| <= |r| && r[..|defaults|] == defaults
  {
    Union(defaults, FilteredMorphRelation(m))
  }
}
