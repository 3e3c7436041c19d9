/**
 * `HipsterJazzbo\Landlord\Landlord`, a `Scope` with permissive tenant selection whose
 * `apply` filters on `table.column` or on the bare column depending on the
 * `landlord.query_with_table_name` setting. Its registry and `creating` are `ScopeContext`'s.
 */
module Landlord {
  import opened Wrappers
  import opened Php
  import opened PhpArray
  import opened Eloquent
  import opened ScopeContext
  import TenantScope

  /** The global-scope key under which the model trait registers this scope object. */
  const ScopeClass: string := "HipsterJazzbo\\Landlord\\Landlord"

  /** `landlord.query_with_table_name` as shipped. */
  const QueryWithTableName: bool := true

  /** The column name `apply` filters on. */
  function FilterColumn(m: Model, column: string, withTableName: bool): string {
    if withTableName then Qualified(m.table, column) else column
  }

  function TenantWheres(m: Model, tenants: seq<(string, Value)>, withTableName: bool): (ws: Query)
    ensures |ws| == |tenants|
    ensures forall i :: 0 <= i < |tenants| ==>
      ws[i] == Basic(FilterColumn(m, tenants[i].0, withTableName), "=", tenants[i].1, And)
  {
    seq(|tenants|, i requires 0 <= i < |tenants| => Basic(FilterColumn(m, tenants[i].0, withTableName), "=", tenants[i].1, And))
  }

  /**
   * `apply`: nothing when disabled; otherwise one `=` where per declared column that has a
   * tenant, on `table.column` when `withTableName` holds and on the bare column otherwise.
   */
  function Apply(c: Context, m: Model, q: Query, defaultColumns: seq<string>, withTableName: bool): (r: Query)
    ensures !c.enabled ==> r == q
    ensures |q| <= |r| && r[..|q|] == q
    ensures c.enabled && Distinct(DeclaredColumns(m, defaultColumns)) ==>
      var ps := Present(c, DeclaredColumns(m, defaultColumns));
      && |r| == |q| + |ps|
      && forall i :: 0 <= i < |ps| ==>
           && HasTenant(c, ps[i])
           && r[|q| + i] == Basic(if withTableName then m.table + "." + ps[i] else ps[i], "=", Get(c.tenants, ps[i]).value, And)
  {
    if !c.enabled then q
    else
      var declared := DeclaredColumns(m, defaultColumns);
      var r := q + TenantWheres(m, PermissiveModelTenants(c, declared), withTableName);
      assert r[..|q|] == q;
      if Distinct(declared) then
        PermissiveOrder(c, declared);
        r
      else r
  }

  /** With the shipped configuration, Landlord's `apply` adds what src/TenantScope.php's adds. */
  lemma ShippedConfigMatchesTenantScope(c: Context, m: Model, q: Query, defaultColumns: seq<string>)
    ensures Apply(c, m, q, defaultColumns, QueryWithTableName) == TenantScope.Apply(c, m, q, defaultColumns)
  {
    var t := PermissiveModelTenants(c, DeclaredColumns(m, defaultColumns));
    assert TenantWheres(m, t, true) == TenantScope.TenantWheres(m, t);
  }

  /** A model that registered this class's scope gets the tenant's id stamped on its single declared column. */
  lemma CreatingExample(m: Model, defaultColumns: seq<string>)
    requires ScopeClass in m.globalScopes && DeclaredColumns(m, defaultColumns) == ["column"]
    ensures var c := AddTenant(Initial, "column", Int(1));
      Creating(c, m, ScopeClass, defaultColumns) == m.(attributes := m.attributes["column" := Int(1)])
  {
    var c := AddTenant(Initial, "column", Int(1));
    assert Get(c.tenants, "column") == Some(Int(1));
    CreatingSingleColumn(c, m, ScopeClass, defaultColumns, "column");
  }
}
