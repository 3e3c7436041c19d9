/**
 * The later `AuraIsHere\LaravelMultiTenant\TenantScope` (src/TenantScope.php), a
 * `Scope` with permissive tenant selection whose `apply` always filters on the
 * table-qualified column. Its registry and `creating` are `ScopeContext`'s.
 */
module TenantScope {
  import opened Wrappers
  import opened Php
  import opened PhpArray
  import opened Eloquent
  import opened ScopeContext

  /** The global-scope key under which the model trait registers this scope object. */
  const ScopeClass: string := "AuraIsHere\\LaravelMultiTenant\\TenantScope"

  /** The `=` where clauses `apply` adds for the given tenants, on `table.column`, in order. */
  function TenantWheres(m: Model, tenants: seq<(string, Value)>): (ws: Query)
    ensures |ws| == |tenants|
    ensures forall i :: 0 <= i < |tenants| ==> ws[i] == Basic(Qualified(m.table, tenants[i].0), "=", tenants[i].1, And)
  {
    seq(|tenants|, i requires 0 <= i < |tenants| => Basic(Qualified(m.table, tenants[i].0), "=", tenants[i].1, And))
  }

  /**
   * `apply`: nothing when disabled; otherwise one `table.column = id` where per declared
   * column that has a tenant. Declared columns without a tenant are skipped, never an error.
   */
  function Apply(c: Context, m: Model, q: Query, defaultColumns: seq<string>): (r: Query)
    ensures !c.enabled ==> r == q
    ensures |q| <= |r| && r[..|q|] == q
    ensures c.enabled && Distinct(DeclaredColumns(m, defaultColumns)) ==>
      var ps := Present(c, DeclaredColumns(m, defaultColumns));
      && |r| == |q| + |ps|
      && forall i :: 0 <= i < |ps| ==>
           && HasTenant(c, ps[i])
           && r[|q| + i] == Basic(Qualified(m.table, ps[i]), "=", Get(c.tenants, ps[i]).value, And)
  {
    if !c.enabled then q
    else
      var declared := DeclaredColumns(m, defaultColumns);
      var r := q + TenantWheres(m, PermissiveModelTenants(c, declared));
      assert r[..|q|] == q;
      if Distinct(declared) then
        PermissiveOrder(c, declared);
        r
      else r
  }

  /** A model declaring only columns without a tenant is not filtered at all. */
  lemma NoTenantNoFilter(c: Context, m: Model, q: Query, defaultColumns: seq<string>)
    requires forall k :: k in DeclaredColumns(m, defaultColumns) ==> !HasTenant(c, k)
    ensures Apply(c, m, q, defaultColumns) == q
  {
    var t := PermissiveModelTenants(c, DeclaredColumns(m, defaultColumns));
    FirstKeyFound(t);
    assert q + [] == q;
  }

  /** The creating scenario of the scope's own test: the registered model gets `column = 1`. */
  lemma CreatingExample(m: Model, defaultColumns: seq<string>)
    requires ScopeClass in m.globalScopes && DeclaredColumns(m, defaultColumns) == ["column"]
    ensures var c := AddTenant(Initial, "column", Int(1));
      Creating(c, m, ScopeClass, defaultColumns) == m.(attributes := m.attributes["column" := Int(1)])
  {
    var c := AddTenant(Initial, "column", Int(1));
    assert Get(c.tenants, "column") == Some(Int(1));
    CreatingSingleColumn(c, m, ScopeClass, defaultColumns, "column");
  }
}
