/**
 * The static side of the `BelongsToTenants` trait, which goes through the tenant
 * manager: the unscoped query and the `findOrFail` that explains a tenant miss.
 */
module BelongsToTenantsStatic {
  import opened Wrappers
  import opened Php
  import opened PhpArray
  import opened Eloquent
  import TenantManager

  /** `allTenants`: the escape query on a fresh instance of the model class. */
  function AllTenants(mgr: TenantManager.Manager, m: Model): (b: Builder)
    ensures b.model.attributes == map[] && b.model.table == m.table && b.wheres == []
    ensures forall n :: n in b.scopes <==> n in m.globalScopes && Get(mgr.tenants, n).None?
    ensures forall n :: n in b.scopes ==> b.scopes[n] == m.globalScopes[n]
  {
    TenantManager.NewQueryWithoutTenants(mgr, Fresh(m))
  }

  /** Whatever the manager registered on the model class at boot, `allTenants` has the same scopes. */
  lemma AllTenantsAfterBoot(mgr: TenantManager.Manager, m: Model)
    ensures AllTenants(mgr, TenantManager.ApplyTenantScopes(mgr, m)).scopes == AllTenants(mgr, m).scopes
  {
    TenantManager.EscapeUndoesApply(mgr, Fresh(m));
    assert Fresh(TenantManager.ApplyTenantScopes(mgr, m)) == TenantManager.ApplyTenantScopes(mgr, Fresh(m));
  }

  /**
   * How `findOrFail` fails: a tenant miss (the row exists outside the scope) or
   * Eloquent's own `ModelNotFoundException`, rethrown unchanged.
   */
  datatype NotFound = ModelNotFoundForTenant(model: string, message: string) | ModelNotFound

  function ForTenantMessage(model: string): string {
    "No query results for model [" + model + "] when scoped by tenant."
  }

  /**
   * `findOrFail`: the lookup on `static::query()` over the stored rows; after a miss, the
   * same lookup on `allTenants` decides which exception is thrown.
   */
  function FindOrFail(mgr: TenantManager.Manager, m: Model, rows: seq<Row>, id: Value,
                      other: (Scope, Row) -> bool, calledClass: string): (r: Result<Row, NotFound>)
    ensures r.Ok? <==> exists i :: 0 <= i < |rows| && rows[i].key == id && Visible(NewQuery(m), rows[i], other)
    ensures r.Ok? ==> r.value in rows && r.value.key == id && Visible(NewQuery(m), r.value, other)
    ensures r.Err? && r.error.ModelNotFoundForTenant? ==>
      r.error == ModelNotFoundForTenant(calledClass, "No query results for model [" + calledClass + "] when scoped by tenant.")
  {
    match Find(NewQuery(m), rows, id, other)
    case Some(row) => Ok(row)
    case None =>
      if Find(AllTenants(mgr, m), rows, id, other).Some? then Err(ModelNotFoundForTenant(calledClass, ForTenantMessage(calledClass)))
      else Err(ModelNotFound)
  }

  /** `allTenants` keeps a subset of the model's scopes, so a row the scoped query sees, it sees too. */
  lemma ScopedHitIsUnscopedHit(mgr: TenantManager.Manager, m: Model, rows: seq<Row>, id: Value, other: (Scope, Row) -> bool)
    ensures Find(NewQuery(m), rows, id, other).Some? ==> Find(AllTenants(mgr, m), rows, id, other).Some?
  {
    FewerScopesSeeMore(NewQuery(m), AllTenants(mgr, m), rows, id, other);
  }

  /**
   * The tenant-specific exception is thrown exactly when a row with the id exists
   * outside the tenant scopes and every such row is hidden from the scoped query; the
   * original exception exactly when no row with the id exists even unscoped.
   */
  lemma TenantMissIffRowElsewhere(mgr: TenantManager.Manager, m: Model, rows: seq<Row>, id: Value,
                                  other: (Scope, Row) -> bool, calledClass: string)
    ensures var r := FindOrFail(mgr, m, rows, id, other, calledClass);
      && (r.Err? && r.error.ModelNotFoundForTenant? <==>
            && (exists i :: 0 <= i < |rows| && rows[i].key == id && Visible(AllTenants(mgr, m), rows[i], other))
            && (forall i :: 0 <= i < |rows| && rows[i].key == id ==> !Visible(NewQuery(m), rows[i], other)))
      && (r == Err(ModelNotFound) <==>
            forall i :: 0 <= i < |rows| && rows[i].key == id ==> !Visible(AllTenants(mgr, m), rows[i], other))
  {
    ScopedHitIsUnscopedHit(mgr, m, rows, id, other);
  }

  /** A row that `allTenants` sees but the scoped query does not is held back by a registered tenant's scope. */
  lemma HiddenByTenantScope(mgr: TenantManager.Manager, m: Model, row: Row, other: (Scope, Row) -> bool)
    requires Visible(AllTenants(mgr, m), row, other)
    requires !Visible(NewQuery(m), row, other)
    ensures exists n :: n in m.globalScopes && Get(mgr.tenants, n).Some? && !Admits(m.globalScopes[n], row, other)
  {
    var n :| n in m.globalScopes && !Admits(m.globalScopes[n], row, other);
    assert Get(mgr.tenants, n).Some?;
  }
}
