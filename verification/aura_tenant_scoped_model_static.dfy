/**
 * The static methods of the AuraIsHere `TenantScopedModelTrait`. Both build their query
 * with `newQuery()`, which runs the tenant scope's `apply`, so both can fail with
 * `TenantColumnUnknownException` like the strict selection does.
 */
module AuraTenantScopedModelStatic {
  import opened Wrappers
  import opened Php
  import opened Eloquent
  import opened ScopeContext
  import opened AuraTenantScope

  /**
   * `allTenants`: `newQueryWithoutScope` on a fresh instance, which builds `newQuery()`
   * (the scope's `apply`) and then calls the registered scope's `remove` on it. Even a
   * disabled scope fails here when a declared column has no tenant, because `remove`
   * selects the tenants regardless of the flag. Its result is the query's where list.
   */
  function AllTenants(c: Context, m: Model, d: seq<string>): (r: Result<Query, Error>)
    ensures r.Ok? <==> forall k :: k in DeclaredColumns(m, d) ==> HasTenant(c, k)
    ensures r.Err? ==> r.error.column in DeclaredColumns(m, d) && !HasTenant(c, r.error.column)
    ensures r.Ok? ==> r.value == []
  {
    var f := Fresh(m);
    match Apply(c, f, d, [])
    case Err(e) => Err(e)
    case Ok(q) =>
      var r := Remove(c, f, d, q);
      if c.enabled && r.Ok? then
        ApplyThenRemove(c, f, d, []);
        assert multiset(r.value) == multiset{};
        r
      else r
  }

  /** Whether the scope is enabled or not, `allTenants` gives the same answer. */
  lemma AllTenantsIgnoresEnabled(c: Context, m: Model, d: seq<string>)
    ensures AllTenants(Disable(c), m, d) == AllTenants(c, m, d)
    ensures AllTenants(Enable(c), m, d) == AllTenants(c, m, d)
  {
    SelectionSeesOnlyTenants(Disable(c), c, DeclaredColumns(m, d), []);
    SelectionSeesOnlyTenants(Enable(c), c, DeclaredColumns(m, d), []);
  }

  /** How `findOrFail` fails: the rethrown miss, or the scope's exception escaping uncaught. */
  datatype NotFound = TenantModelNotFound(model: string, message: string) | ColumnUnknown(column: string)

  /**
   * `findOrFail`: the scoped query is built first, which fails like `apply`; `found` is
   * what the database returns for it. Any miss becomes `TenantModelNotFoundException`,
   * whether or not the row exists for another tenant.
   */
  function FindOrFail<R>(c: Context, m: Model, d: seq<string>, found: Option<R>, calledClass: string): (r: Result<R, NotFound>)
    ensures r.Err? && r.error.ColumnUnknown? <==> Apply(c, Fresh(m), d, []).Err?
    ensures r.Err? && r.error.ColumnUnknown? ==>
      r.error.column in DeclaredColumns(m, d) && !HasTenant(c, r.error.column)
    ensures Apply(c, Fresh(m), d, []).Ok? ==> (r.Ok? <==> found.Some?)
    ensures r.Ok? ==> found == Some(r.value)
    ensures r.Err? && r.error.TenantModelNotFound? ==>
      r.error == TenantModelNotFound(calledClass, "No query results for model [" + calledClass + "] when scoped by tenant.")
  {
    match Apply(c, Fresh(m), d, [])
    case Err(e) => Err(ColumnUnknown(e.column))
    case Ok(_) =>
      match found
      case Some(rec) => Ok(rec)
      case None => Err(TenantModelNotFound(calledClass, "No query results for model [" + calledClass + "] when scoped by tenant."))
  }

  /**
   * The scope's exception escapes `findOrFail` only from an enabled scope, and then
   * `allTenants` fails on the same column.
   */
  lemma FindOrFailColumnUnknown<R>(c: Context, m: Model, d: seq<string>, found: Option<R>, calledClass: string)
    ensures var r := FindOrFail(c, m, d, found, calledClass);
      r.Err? && r.error.ColumnUnknown? ==> c.enabled && AllTenants(c, m, d) == Err(TenantColumnUnknown(r.error.column))
  {
  }
}
