/**
 * The tenant registry that the scope classes `AuraIsHere\LaravelMultiTenant\TenantScope`,
 * `HipsterJazzbo\Landlord\Landlord` and the later `AuraIsHere\LaravelMultiTenant\TenantScope`
 * (src/TenantScope.php) hold: a PHP array from tenant column to tenant id plus an
 * `enabled` flag. The three classes share this code line for line; they differ in how
 * they select a model's tenants and in what `apply` adds, which their own modules model.
 */
module ScopeContext {
  import opened Wrappers
  import opened Php
  import opened PhpArray
  import opened Eloquent

  datatype Context = Context(enabled: bool, tenants: Arr<Value>)

  /** A newly constructed scope object: enabled, with no tenants. */
  const Initial: Context := Context(true, [])

  /** `TenantColumnUnknownException`, naming the column that was asked for. */
  datatype Error = TenantColumnUnknown(column: string)

  function Enable(c: Context): (r: Context)
    ensures r.enabled && r.tenants == c.tenants
  {
    c.(enabled := true)
  }

  function Disable(c: Context): (r: Context)
    ensures !r.enabled && r.tenants == c.tenants
  {
    c.(enabled := false)
  }

  /** `addTenant`: re-enables scoping, then stores the id, overwriting an earlier one. */
  function AddTenant(c: Context, column: string, id: Value): (r: Context)
    ensures r.enabled
    ensures Get(r.tenants, column) == Some(id)
    ensures forall k :: k != column ==> Get(r.tenants, k) == Get(c.tenants, k)
  {
    Context(true, Put(c.tenants, column, id))
  }

  /** `hasTenant` is `isset`: a column stored with a null id does not count. */
  predicate HasTenant(c: Context, column: string)
    ensures HasTenant(c, column) <==>
      exists i :: 0 <= i < |c.tenants| && c.tenants[i].0 == column && IsSet(c.tenants[i].1)
  {
    var v := Get(c.tenants, column);
    assert v.Some? ==> IsSet(v.value) == IsSet(c.tenants[IndexOf(c.tenants, column)].1) by {
      if v.Some? {
        GetEntry(c.tenants, IndexOf(c.tenants, column));
      }
    }
    assert forall i :: 0 <= i < |c.tenants| && c.tenants[i].0 == column ==> v == Some(c.tenants[i].1) by {
      forall i | 0 <= i < |c.tenants| && c.tenants[i].0 == column
        ensures v == Some(c.tenants[i].1)
      {
        GetEntry(c.tenants, i);
      }
    }
    v.Some? && IsSet(v.value)
  }

  /** `removeTenant`: unsets the column and answers true exactly when `hasTenant` held. */
  function RemoveTenant(c: Context, column: string): (r: (Context, bool))
    ensures r.1 == HasTenant(c, column)
    ensures r.1 ==> r.0.enabled == c.enabled && Get(r.0.tenants, column) == None
    ensures r.1 ==> forall k :: k != column ==> Get(r.0.tenants, k) == Get(c.tenants, k)
    ensures !r.1 ==> r.0 == c
  {
    if HasTenant(c, column) then (c.(tenants := Unset(c.tenants, column)), true)
    else (c, false)
  }

  /** `getTenantId`: the stored id, or `TenantColumnUnknownException` when `hasTenant` fails. */
  function GetTenantId(c: Context, column: string): (r: Result<Value, Error>)
    ensures r.Ok? <==> HasTenant(c, column)
    ensures r.Ok? ==> Get(c.tenants, column) == Some(r.value) && IsSet(r.value)
    ensures r.Err? ==> r.error == TenantColumnUnknown(column)
  {
    if HasTenant(c, column) then Ok(Get(c.tenants, column).value)
    else Err(TenantColumnUnknown(column))
  }

  /** The declared columns that have a tenant, in declared order: a reference for selection order. */
  function Present(c: Context, declared: seq<string>): (ps: seq<string>)
    ensures forall k :: k in ps <==> k in declared && HasTenant(c, k)
  {
    if |declared| == 0 then []
    else (if HasTenant(c, declared[0]) then [declared[0]] else []) + Present(c, declared[1..])
  }

  predicate Distinct(s: seq<string>) {
    forall i, j :: 0 <= i < j < |s| ==> s[i] != s[j]
  }

  /** The loop of the permissive `getModelTenants`, continuing from the array built so far. */
  function PermissiveFrom(c: Context, declared: seq<string>, acc: Arr<Value>): (r: Arr<Value>)
    ensures forall k :: Get(r, k) == (if k in declared && HasTenant(c, k) then Get(c.tenants, k) else Get(acc, k))
    decreases |declared|
  {
    if |declared| == 0 then acc
    else
      var col := declared[0];
      var next := if HasTenant(c, col) then Put(acc, col, GetTenantId(c, col).value) else acc;
      PermissiveFrom(c, declared[1..], next)
  }

  /**
   * Permissive `getModelTenants` (src/Landlord.php, src/TenantScope.php): the declared
   * columns that `hasTenant`, each with its id; other declared columns are skipped.
   */
  function PermissiveModelTenants(c: Context, declared: seq<string>): (r: Arr<Value>)
    ensures forall k :: Get(r, k) == (if k in declared && HasTenant(c, k) then Get(c.tenants, k) else None)
  {
    PermissiveFrom(c, declared, [])
  }

  /** With distinct declared columns, the selection lists them in declared order. */
  lemma {:induction false} PermissiveOrderFrom(c: Context, declared: seq<string>, acc: Arr<Value>)
    requires Distinct(declared)
    requires forall k :: k in declared ==> k !in Keys(acc)
    ensures Keys(PermissiveFrom(c, declared, acc)) == Keys(acc) + Present(c, declared)
    decreases |declared|
  {
    if |declared| == 0 {
      assert Keys(acc) + [] == Keys(acc);
    } else {
      var col := declared[0];
      var rest := declared[1..];
      assert Distinct(rest) by {
        forall i, j | 0 <= i < j < |rest|
          ensures rest[i] != rest[j]
        {
          assert rest[i] == declared[i + 1] && rest[j] == declared[j + 1];
        }
      }
      assert col !in rest by {
        forall i | 0 <= i < |rest|
          ensures rest[i] != col
        {
          assert rest[i] == declared[i + 1];
        }
      }
      var next := if HasTenant(c, col) then Put(acc, col, GetTenantId(c, col).value) else acc;
      assert PermissiveFrom(c, declared, acc) == PermissiveFrom(c, rest, next);
      var added := if HasTenant(c, col) then [col] else [];
      assert Present(c, declared) == added + Present(c, rest);
      assert Keys(next) == Keys(acc) + added;
      assert forall k :: k in rest ==> k !in Keys(next) by {
        forall k | k in rest
          ensures k !in Keys(next)
        {
          assert k in declared;
        }
      }
      PermissiveOrderFrom(c, rest, next);
      ConcatAssoc(Keys(acc), added, Present(c, rest));
    }
  }

  lemma ConcatAssoc(a: seq<string>, b: seq<string>, d: seq<string>)
    ensures a + b + d == a + (b + d)
  {
  }

  /** With distinct declared columns, the selection pairs each present column, in declared order, with its id. */
  lemma PermissiveOrder(c: Context, declared: seq<string>)
    requires Distinct(declared)
    ensures Keys(PermissiveModelTenants(c, declared)) == Present(c, declared)
    ensures forall i :: 0 <= i < |Present(c, declared)| ==>
      HasTenant(c, Present(c, declared)[i])
      && PermissiveModelTenants(c, declared)[i] == (Present(c, declared)[i], Get(c.tenants, Present(c, declared)[i]).value)
  {
    PermissiveOrderFrom(c, declared, []);
    var t := PermissiveModelTenants(c, declared);
    var ps := Present(c, declared);
    forall i | 0 <= i < |ps|
      ensures HasTenant(c, ps[i]) && t[i] == (ps[i], Get(c.tenants, ps[i]).value)
    {
      assert ps[i] in ps;
      assert Keys(t)[i] == t[i].0;
      GetEntry(t, i);
    }
  }

  /** The loop of the strict `getModelTenants`, continuing from the array built so far. */
  function StrictFrom(c: Context, declared: seq<string>, acc: Arr<Value>): (r: Result<Arr<Value>, Error>)
    ensures r.Ok? <==> forall k :: k in declared ==> HasTenant(c, k)
    ensures r.Ok? ==> forall k :: Get(r.value, k) == (if k in declared then Get(c.tenants, k) else Get(acc, k))
    ensures r.Err? ==> r.error.column in declared && !HasTenant(c, r.error.column)
    decreases |declared|
  {
    if |declared| == 0 then Ok(acc)
    else
      match GetTenantId(c, declared[0])
      case Err(e) => Err(e)
      case Ok(id) => StrictFrom(c, declared[1..], Put(acc, declared[0], id))
  }

  /**
   * Strict `getModelTenants` (src/AuraIsHere/LaravelMultiTenant/TenantScope.php): every
   * declared column must have a tenant, otherwise `TenantColumnUnknownException`.
   */
  function StrictModelTenants(c: Context, declared: seq<string>): (r: Result<Arr<Value>, Error>)
    ensures r.Ok? <==> forall k :: k in declared ==> HasTenant(c, k)
    ensures r.Ok? ==> forall k :: Get(r.value, k) == (if k in declared then Get(c.tenants, k) else None)
    ensures r.Err? ==> r.error.column in declared && !HasTenant(c, r.error.column)
  {
    StrictFrom(c, declared, [])
  }

  /** Where the strict selection succeeds, it builds exactly the permissive selection. */
  lemma {:induction false} StrictAgreesFrom(c: Context, declared: seq<string>, acc: Arr<Value>)
    requires StrictFrom(c, declared, acc).Ok?
    ensures StrictFrom(c, declared, acc).value == PermissiveFrom(c, declared, acc)
    decreases |declared|
  {
    if |declared| > 0 {
      StrictAgreesFrom(c, declared[1..], Put(acc, declared[0], GetTenantId(c, declared[0]).value));
    }
  }

  lemma StrictAgreesWithPermissive(c: Context, declared: seq<string>)
    requires StrictModelTenants(c, declared).Ok?
    ensures StrictModelTenants(c, declared).value == PermissiveModelTenants(c, declared)
  {
    StrictAgreesFrom(c, declared, []);
  }

  /** The selections read only the tenant array, not the `enabled` flag. */
  lemma {:induction false} SelectionSeesOnlyTenants(c1: Context, c2: Context, declared: seq<string>, acc: Arr<Value>)
    requires c1.tenants == c2.tenants
    ensures StrictFrom(c1, declared, acc) == StrictFrom(c2, declared, acc)
    ensures PermissiveFrom(c1, declared, acc) == PermissiveFrom(c2, declared, acc)
    decreases |declared|
  {
    if |declared| > 0 {
      var col := declared[0];
      assert HasTenant(c1, col) == HasTenant(c2, col);
      SelectionSeesOnlyTenants(c1, c2, declared[1..], if HasTenant(c1, col) then Put(acc, col, GetTenantId(c1, col).value) else acc);
    }
  }

  /** When every declared column has a tenant, all of them are present. */
  lemma {:induction false} PresentAll(c: Context, declared: seq<string>)
    requires forall k :: k in declared ==> HasTenant(c, k)
    ensures Present(c, declared) == declared
    decreases |declared|
  {
    if |declared| > 0 {
      PresentAll(c, declared[1..]);
      assert [declared[0]] + declared[1..] == declared;
    }
  }

  /** With distinct declared columns, a successful strict selection pairs each of them, in order, with its id. */
  lemma StrictOrder(c: Context, declared: seq<string>)
    requires Distinct(declared)
    requires StrictModelTenants(c, declared).Ok?
    ensures Keys(StrictModelTenants(c, declared).value) == declared
    ensures forall i :: 0 <= i < |declared| ==>
      StrictModelTenants(c, declared).value[i] == (declared[i], Get(c.tenants, declared[i]).value)
  {
    var t := StrictModelTenants(c, declared).value;
    StrictAgreesWithPermissive(c, declared);
    PermissiveOrder(c, declared);
    PresentAll(c, declared);
    forall i | 0 <= i < |declared|
      ensures t[i] == (declared[i], Get(c.tenants, declared[i]).value)
    {
      assert Keys(t)[i] == t[i].0;
      GetEntry(t, i);
    }
  }

  /**
   * `creating` of src/Landlord.php and src/TenantScope.php: when the model still has the
   * scope registered under `scopeClass`, every selected tenant column is overwritten with
   * the context id; otherwise the model is left alone. The `enabled` flag is not consulted.
   */
  function Creating(c: Context, m: Model, scopeClass: string, defaultColumns: seq<string>): (r: Model)
    ensures scopeClass !in m.globalScopes ==> r == m
    ensures r == m.(attributes := r.attributes)
    ensures scopeClass in m.globalScopes ==>
      forall k :: k in DeclaredColumns(m, defaultColumns) && HasTenant(c, k) ==>
        k in r.attributes && Get(c.tenants, k) == Some(r.attributes[k])
    ensures forall k :: !(k in DeclaredColumns(m, defaultColumns) && HasTenant(c, k)) ==>
      (k in r.attributes <==> k in m.attributes) && (k in m.attributes ==> r.attributes[k] == m.attributes[k])
  {
    if scopeClass !in m.globalScopes then m
    else m.(attributes := Overwrite(m.attributes, PermissiveModelTenants(c, DeclaredColumns(m, defaultColumns))))
  }

  /** With its scope registered and a single declared column that has a tenant, `creating` sets exactly that column to the id. */
  lemma CreatingSingleColumn(c: Context, m: Model, scopeClass: string, defaultColumns: seq<string>, column: string)
    requires scopeClass in m.globalScopes
    requires DeclaredColumns(m, defaultColumns) == [column] && HasTenant(c, column)
    ensures Creating(c, m, scopeClass, defaultColumns) == m.(attributes := m.attributes[column := Get(c.tenants, column).value])
  {
    var r := Creating(c, m, scopeClass, defaultColumns).attributes;
    var want := m.attributes[column := Get(c.tenants, column).value];
    forall k
      ensures (k in r <==> k in want) && (k in want ==> r[k] == want[k])
    {
      if k == column {
        assert k in DeclaredColumns(m, defaultColumns);
      }
    }
    assert r.Keys == want.Keys;
  }

  /** `creating` stamps whether or not scoping is enabled. */
  lemma CreatingIgnoresEnabled(c: Context, m: Model, scopeClass: string, defaultColumns: seq<string>)
    ensures Creating(Disable(c), m, scopeClass, defaultColumns) == Creating(c, m, scopeClass, defaultColumns)
  {
    SelectionSeesOnlyTenants(Disable(c), c, DeclaredColumns(m, defaultColumns), []);
  }

  /** A column added with a null id is stored but invisible to `hasTenant`, `removeTenant` and `getTenantId`. */
  lemma NullIdIsInvisible(c: Context, column: string)
    ensures var c' := AddTenant(c, column, Null);
      && Get(c'.tenants, column) == Some(Null)
      && !HasTenant(c', column)
      && RemoveTenant(c', column) == (c', false)
      && GetTenantId(c', column) == Err(TenantColumnUnknown(column))
  {
  }

  /** Disabling and re-enabling keeps the registered tenants. */
  lemma DisableEnableKeepsTenants(c: Context)
    ensures Enable(Disable(c)).tenants == c.tenants
    ensures Enable(Disable(c)) == c.(enabled := true)
  {
  }
}
