/**
 * `HipsterJazzbo\Landlord\TenantManager`, the newest revision of the engine: a
 * Collection of tenants keyed by column (or by a tenant model's foreign key), an
 * `enabled` flag, and one named global scope per tenant column on each model.
 */
module TenantManager {
  import opened Wrappers
  import opened Php
  import opened PhpArray
  import opened Eloquent
  import BelongsToTenants

  datatype Manager = Manager(enabled: bool, tenants: Arr<Value>)

  /** A newly constructed manager: enabled, with an empty collection. */
  const Initial: Manager := Manager(true, [])

  /** `TenantNullIdException` and `TenantColumnUnknownException`. */
  datatype Error = TenantNullId | TenantColumnUnknown

  /**
   * What a caller passes as `$tenant`: a column name, a tenant model (its foreign-key
   * name and its primary key), or any other value.
   */
  datatype TenantRef = Column(name: string) | Instance(foreignKey: string, key: Value) | Unsupported

  function Enable(m: Manager): (r: Manager)
    ensures r.enabled && r.tenants == m.tenants
  {
    m.(enabled := true)
  }

  function Disable(m: Manager): (r: Manager)
    ensures !r.enabled && r.tenants == m.tenants
  {
    m.(enabled := false)
  }

  /** `getTenantKey`: a model stands for its foreign-key name; anything but a string or a model is rejected. */
  function TenantKey(t: TenantRef): (r: Result<string, Error>)
    ensures r.Err? <==> t.Unsupported?
    ensures t.Column? ==> r == Ok(t.name)
    ensures t.Instance? ==> r == Ok(t.foreignKey)
    ensures r.Err? ==> r.error == TenantColumnUnknown
  {
    match t
    case Column(name) => Ok(name)
    case Instance(fk, _) => Ok(fk)
    case Unsupported => Err(TenantColumnUnknown)
  }

  /**
   * The id `addTenant` goes on with: with one argument and a model, the model's key;
   * otherwise the second argument, which defaults to null.
   */
  function EffectiveId(t: TenantRef, id: Option<Value>): Value {
    if id.None? && t.Instance? then t.key else id.GetOr(Null)
  }

  /**
   * `addTenant`: a null id is rejected before the key is resolved; otherwise the id is
   * stored under the key, replacing an earlier one. The `enabled` flag is left alone.
   */
  function AddTenant(m: Manager, t: TenantRef, id: Option<Value>): (r: Result<Manager, Error>)
    ensures EffectiveId(t, id) == Null ==> r == Err(TenantNullId)
    ensures EffectiveId(t, id) != Null && t.Unsupported? ==> r == Err(TenantColumnUnknown)
    ensures r.Ok? <==> EffectiveId(t, id) != Null && !t.Unsupported?
    ensures r.Ok? ==> r.value.enabled == m.enabled
    ensures r.Ok? ==> Get(r.value.tenants, TenantKey(t).value) == Some(EffectiveId(t, id))
    ensures r.Ok? ==> forall k :: k != TenantKey(t).value ==> Get(r.value.tenants, k) == Get(m.tenants, k)
  {
    var v := EffectiveId(t, id);
    if v == Null then Err(TenantNullId)
    else
      match TenantKey(t)
      case Err(e) => Err(e)
      case Ok(key) => Ok(m.(tenants := Put(m.tenants, key, v)))
  }

  /** No key of the collection maps to a null id. */
  ghost predicate NoNullIds(m: Manager) {
    forall k :: Get(m.tenants, k) != Some(Null)
  }

  /** `removeTenant`: pulls exactly the key; pulling an absent key changes nothing. */
  function RemoveTenant(m: Manager, t: TenantRef): (r: Result<Manager, Error>)
    ensures r.Err? <==> t.Unsupported?
    ensures r.Ok? ==> r.value.enabled == m.enabled && Get(r.value.tenants, TenantKey(t).value) == None
    ensures r.Ok? ==> forall k :: k != TenantKey(t).value ==> Get(r.value.tenants, k) == Get(m.tenants, k)
  {
    match TenantKey(t)
    case Err(e) => Err(e)
    case Ok(key) => Ok(m.(tenants := Unset(m.tenants, key)))
  }

  /** `hasTenant`: whether the key is in the collection. */
  function HasTenant(m: Manager, t: TenantRef): (r: Result<bool, Error>)
    ensures r.Err? <==> t.Unsupported?
    ensures r.Ok? ==> (r.value <==> Get(m.tenants, TenantKey(t).value).Some?)
  {
    match TenantKey(t)
    case Err(e) => Err(e)
    case Ok(key) => Ok(key in Keys(m.tenants))
  }

  /** `getTenantId`: the stored id, or `TenantColumnUnknownException` for an unknown or absent key. */
  function GetTenantId(m: Manager, t: TenantRef): (r: Result<Value, Error>)
    ensures r.Ok? <==> !t.Unsupported? && Get(m.tenants, TenantKey(t).value).Some?
    ensures r.Ok? ==> Get(m.tenants, TenantKey(t).value) == Some(r.value)
    ensures r.Err? ==> r.error == TenantColumnUnknown
  {
    match HasTenant(m, t)
    case Err(e) => Err(e)
    case Ok(has) => if has then Ok(Get(m.tenants, TenantKey(t).value).value) else Err(TenantColumnUnknown)
  }

  /** A model stands for its foreign key: every lookup treats it like the bare column name. */
  lemma ModelAndColumnAgree(m: Manager, foreignKey: string, key: Value)
    ensures HasTenant(m, Instance(foreignKey, key)) == HasTenant(m, Column(foreignKey))
    ensures GetTenantId(m, Instance(foreignKey, key)) == GetTenantId(m, Column(foreignKey))
    ensures RemoveTenant(m, Instance(foreignKey, key)) == RemoveTenant(m, Column(foreignKey))
  {
  }

  /** Last write wins: after a successful `addTenant`, `getTenantId` returns the new id. */
  lemma AddThenGetTenantId(m: Manager, t: TenantRef, id: Option<Value>)
    requires AddTenant(m, t, id).Ok?
    ensures GetTenantId(AddTenant(m, t, id).value, t) == Ok(EffectiveId(t, id))
    ensures forall k :: k != TenantKey(t).value ==> GetTenantId(AddTenant(m, t, id).value, Column(k)) == GetTenantId(m, Column(k))
  {
  }

  /** After `removeTenant`, `hasTenant` is false and `getTenantId` fails for that key. */
  lemma RemoveThenHasTenant(m: Manager, t: TenantRef)
    requires !t.Unsupported?
    ensures HasTenant(RemoveTenant(m, t).value, t) == Ok(false)
    ensures GetTenantId(RemoveTenant(m, t).value, t) == Err(TenantColumnUnknown)
  {
  }

  /** Since `addTenant` rejects null, a collection built by the manager never holds a null id. */
  lemma NoNullIdsKept(m: Manager, t: TenantRef, id: Option<Value>)
    requires NoNullIds(m)
    ensures NoNullIds(Initial)
    ensures AddTenant(m, t, id).Ok? ==> NoNullIds(AddTenant(m, t, id).value)
    ensures RemoveTenant(m, t).Ok? ==> NoNullIds(RemoveTenant(m, t).value)
    ensures NoNullIds(Enable(m)) && NoNullIds(Disable(m))
  {
  }

  /** `modelTenants`: the registered tenants restricted to the model's declared columns. */
  function ModelTenants(m: Manager, model: Model): (r: Arr<Value>)
    ensures forall k :: Get(r, k) == (if k in BelongsToTenants.TenantColumns(model) then Get(m.tenants, k) else None)
  {
    Only(m.tenants, BelongsToTenants.TenantColumns(model))
  }

  /** Register one `TenantEquals` scope per entry, keyed by the tenant column. */
  function AddTenantScopes(scopes: map<string, Scope>, tenants: Arr<Value>): (r: map<string, Scope>)
    ensures forall k :: Get(tenants, k).Some? ==> k in r && r[k] == TenantEquals(k, Get(tenants, k).value)
    ensures forall k :: Get(tenants, k).None? ==> (k in r <==> k in scopes) && (k in scopes ==> r[k] == scopes[k])
    decreases |tenants|
  {
    if |tenants| == 0 then scopes
    else
      HeadNotInTail(tenants);
      var tail: Arr<Value> := tenants[1..];
      AddTenantScopes(scopes[tenants[0].0 := TenantEquals(tenants[0].0, tenants[0].1)], tail)
  }

  /** A declared column that has a registered tenant. */
  predicate Active(m: Manager, model: Model, k: string) {
    k in BelongsToTenants.TenantColumns(model) && k in Keys(m.tenants)
  }

  /**
   * `applyTenantScopes`: when enabled, one global scope per active declared column, keyed by
   * the column, replacing any scope of that name; registered tenants the model does not
   * declare get none. When disabled, nothing changes.
   */
  function ApplyTenantScopes(m: Manager, model: Model): (r: Model)
    ensures !m.enabled ==> r == model
    ensures r == model.(globalScopes := r.globalScopes)
    ensures m.enabled ==> forall k :: Active(m, model, k) ==>
      k in r.globalScopes && r.globalScopes[k] == TenantEquals(k, Get(m.tenants, k).value)
    ensures forall k :: !(m.enabled && Active(m, model, k)) ==>
      (k in r.globalScopes <==> k in model.globalScopes) && (k in model.globalScopes ==> r.globalScopes[k] == model.globalScopes[k])
  {
    if !m.enabled then model
    else model.(globalScopes := AddTenantScopes(model.globalScopes, ModelTenants(m, model)))
  }

  /** A model without `$tenantColumns` is scoped by `company_id` and by no other registered tenant. */
  lemma DefaultModelScopedByCompany(m: Manager, model: Model)
    requires model.tenantColumns.None? && m.enabled
    ensures var r := ApplyTenantScopes(m, model);
      && (Get(m.tenants, "company_id").Some? ==>
            "company_id" in r.globalScopes && r.globalScopes["company_id"] == TenantEquals("company_id", Get(m.tenants, "company_id").value))
      && forall k :: k != "company_id" ==>
           (k in r.globalScopes <==> k in model.globalScopes) && (k in model.globalScopes ==> r.globalScopes[k] == model.globalScopes[k])
  {
  }

  /** Registering the same tenants twice is registering them once. */
  lemma AddTenantScopesTwice(scopes: map<string, Scope>, tenants: Arr<Value>)
    ensures AddTenantScopes(AddTenantScopes(scopes, tenants), tenants) == AddTenantScopes(scopes, tenants)
  {
    var once := AddTenantScopes(scopes, tenants);
    var twice := AddTenantScopes(once, tenants);
    forall k ensures (k in twice <==> k in once) && (k in once ==> twice[k] == once[k]) {
      if Get(tenants, k).Some? {
      }
    }
  }

  /** Scopes are keyed by column, so applying twice registers nothing new. */
  lemma ApplyTenantScopesIdempotent(m: Manager, model: Model)
    ensures ApplyTenantScopes(m, ApplyTenantScopes(m, model)) == ApplyTenantScopes(m, model)
  {
    if m.enabled {
      var once := ApplyTenantScopes(m, model);
      assert ModelTenants(m, once) == ModelTenants(m, model);
      AddTenantScopesTwice(model.globalScopes, ModelTenants(m, model));
    }
  }

  /** Stamp each entry's id onto an attribute that is not set yet. */
  function FillUnset(attrs: map<string, Value>, tenants: Arr<Value>): (r: map<string, Value>)
    ensures forall k :: Get(tenants, k).Some? && !(k in attrs && IsSet(attrs[k])) ==>
      k in r && r[k] == Get(tenants, k).value
    ensures forall k :: !(Get(tenants, k).Some? && !(k in attrs && IsSet(attrs[k]))) ==>
      (k in r <==> k in attrs) && (k in attrs ==> r[k] == attrs[k])
    decreases |tenants|
  {
    if |tenants| == 0 then attrs
    else
      HeadNotInTail(tenants);
      var tail: Arr<Value> := tenants[1..];
      var (k, v) := tenants[0];
      FillUnset(if k in attrs && IsSet(attrs[k]) then attrs else attrs[k := v], tail)
  }

  /**
   * `newModel`: when enabled, each active declared column whose attribute is unset gets
   * the tenant id; attributes already set and undeclared columns keep their values.
   */
  function NewModel(m: Manager, model: Model): (r: Model)
    ensures !m.enabled ==> r == model
    ensures r == model.(attributes := r.attributes)
    ensures m.enabled ==> forall k :: Active(m, model, k) && !AttributeIsSet(model, k) ==>
      k in r.attributes && r.attributes[k] == Get(m.tenants, k).value
    ensures forall k :: !(m.enabled && Active(m, model, k) && !AttributeIsSet(model, k)) ==>
      (k in r.attributes <==> k in model.attributes) && (k in model.attributes ==> r.attributes[k] == model.attributes[k])
  {
    if !m.enabled then model
    else model.(attributes := FillUnset(model.attributes, ModelTenants(m, model)))
  }

  /** An explicitly set tenant column survives `newModel`. */
  lemma NewModelKeepsExplicitValue(m: Manager, model: Model, k: string)
    requires AttributeIsSet(model, k)
    ensures k in NewModel(m, model).attributes && NewModel(m, model).attributes[k] == model.attributes[k]
  {
  }

  /** Register one `TenantEqualsOrNull` scope per entry, keyed by the tenant column. */
  function AddNullableScopes(scopes: map<string, Scope>, table: string, tenants: Arr<Value>): (r: map<string, Scope>)
    ensures forall k :: Get(tenants, k).Some? ==>
      k in r && r[k] == TenantEqualsOrNull(Qualified(table, k), Get(tenants, k).value)
    ensures forall k :: Get(tenants, k).None? ==> (k in r <==> k in scopes) && (k in scopes ==> r[k] == scopes[k])
    decreases |tenants|
  {
    if |tenants| == 0 then scopes
    else
      HeadNotInTail(tenants);
      var tail: Arr<Value> := tenants[1..];
      var (k, v) := tenants[0];
      AddNullableScopes(scopes[k := TenantEqualsOrNull(Qualified(table, k), v)], table, tail)
  }

  /**
   * `includeNull`: when enabled, each active declared column's scope becomes
   * `table.column = id OR table.column IS NULL`, under the same name. The query it
   * builds first with `withoutGlobalScopes` is discarded and has no effect.
   */
  function IncludeNull(m: Manager, model: Model): (r: Model)
    ensures !m.enabled ==> r == model
    ensures r == model.(globalScopes := r.globalScopes)
    ensures m.enabled ==> forall k :: Active(m, model, k) ==>
      k in r.globalScopes && r.globalScopes[k] == TenantEqualsOrNull(Qualified(model.table, k), Get(m.tenants, k).value)
    ensures forall k :: !(m.enabled && Active(m, model, k)) ==>
      (k in r.globalScopes <==> k in model.globalScopes) && (k in model.globalScopes ==> r.globalScopes[k] == model.globalScopes[k])
  {
    if !m.enabled then model
    else model.(globalScopes := AddNullableScopes(model.globalScopes, model.table, ModelTenants(m, model)))
  }

  /** Nullable scopes registered over tenant scopes of the same names replace them all. */
  lemma NullableOverTenantScopes(scopes: map<string, Scope>, table: string, tenants: Arr<Value>)
    ensures AddNullableScopes(AddTenantScopes(scopes, tenants), table, tenants) == AddNullableScopes(scopes, table, tenants)
  {
    var t := AddTenantScopes(scopes, tenants);
    var x := AddNullableScopes(t, table, tenants);
    var y := AddNullableScopes(scopes, table, tenants);
    forall k
      ensures (k in x <==> k in y) && (k in y ==> x[k] == y[k])
    {
      if Get(tenants, k).None? {
        assert (k in t <==> k in scopes) && (k in scopes ==> t[k] == scopes[k]);
      }
    }
    assert x.Keys == y.Keys;
  }

  /** `includeNull` replaces the scopes `applyTenantScopes` registered rather than adding to them. */
  lemma IncludeNullReplacesTenantScopes(m: Manager, model: Model)
    ensures IncludeNull(m, ApplyTenantScopes(m, model)) == IncludeNull(m, model)
  {
    if m.enabled {
      var applied := ApplyTenantScopes(m, model);
      assert ModelTenants(m, applied) == ModelTenants(m, model);
      NullableOverTenantScopes(model.globalScopes, model.table, ModelTenants(m, model));
    }
  }

  /**
   * `newQueryWithoutTenants`: a query on the model without the scope of any registered
   * tenant, declared by the model or not; every other global scope stays active.
   */
  function NewQueryWithoutTenants(m: Manager, model: Model): (b: Builder)
    ensures b.model == model && b.wheres == []
    ensures forall n :: n in b.scopes <==> n in model.globalScopes && Get(m.tenants, n).None?
    ensures forall n :: n in b.scopes ==> b.scopes[n] == model.globalScopes[n]
  {
    WithoutGlobalScopes(NewQuery(model), Keys(m.tenants))
  }

  /** The escape query drops every scope `applyTenantScopes` adds and keeps the rest. */
  lemma EscapeUndoesApply(m: Manager, model: Model)
    ensures NewQueryWithoutTenants(m, ApplyTenantScopes(m, model)).scopes == NewQueryWithoutTenants(m, model).scopes
  {
  }

  /** The collections of the manager's own test, after each step. */
  const TenantsA: Arr<Value> := [("tenant_a_id", Int(1))]
  const TenantsAB: Arr<Value> := [("tenant_a_id", Int(1)), ("tenant_b_id", Int(2))]
  const TenantsB: Arr<Value> := [("tenant_b_id", Int(2))]

  /** Adding a second string tenant appends it after the first. */
  lemma AddSecondTenantExample()
    ensures AddTenant(Manager(true, TenantsA), Column("tenant_b_id"), Some(Int(2))) == Ok(Manager(true, TenantsAB))
  {
    assert Keys(TenantsA) == ["tenant_a_id"];
    assert TenantsA + [("tenant_b_id", Int(2))] == TenantsAB;
  }

  /** Removing the first tenant keeps the second. */
  lemma RemoveTenantExample()
    ensures RemoveTenant(Manager(true, TenantsAB), Column("tenant_a_id")) == Ok(Manager(true, TenantsB))
  {
    assert Keys(TenantsAB)[0] == "tenant_a_id";
    assert IndexOf(TenantsAB, "tenant_a_id") == 0;
    assert TenantsAB[..0] + TenantsAB[1..] == TenantsB;
  }

  /** After the removal, only the second tenant is present. */
  lemma HasTenantExample()
    ensures HasTenant(Manager(true, TenantsB), Column("tenant_b_id")) == Ok(true)
    ensures HasTenant(Manager(true, TenantsB), Column("tenant_a_id")) == Ok(false)
  {
    assert Keys(TenantsB) == ["tenant_b_id"];
  }

  /** `getTenantId` returns the id stored for the column. */
  lemma GetTenantIdExample()
    ensures GetTenantId(Manager(true, TenantsA), Column("tenant_a_id")) == Ok(Int(1))
  {
    assert Keys(TenantsA) == ["tenant_a_id"];
  }

  /** A model declaring only `tenant_a_id` gets a scope for it and none for `tenant_b_id`. */
  lemma ApplyTenantScopesExample(model: Model)
    requires model.tenantColumns == Some(Many(["tenant_a_id"])) && model.globalScopes == map[]
    ensures "tenant_a_id" in ApplyTenantScopes(Manager(true, TenantsAB), model).globalScopes
    ensures "tenant_b_id" !in ApplyTenantScopes(Manager(true, TenantsAB), model).globalScopes
  {
    assert Active(Manager(true, TenantsAB), model, "tenant_a_id") by {
      assert Keys(TenantsAB)[0] == "tenant_a_id";
    }
  }

  /** A new model declaring only `tenant_a_id` gets that column filled and `tenant_b_id` left unset. */
  lemma NewModelExample(model: Model)
    requires model.tenantColumns == Some(Many(["tenant_a_id"])) && model.attributes == map[]
    ensures var r := NewModel(Manager(true, TenantsAB), model);
      && "tenant_a_id" in r.attributes && r.attributes["tenant_a_id"] == Int(1)
      && "tenant_b_id" !in r.attributes
  {
    assert Active(Manager(true, TenantsAB), model, "tenant_a_id") by {
      assert Keys(TenantsAB)[0] == "tenant_a_id";
    }
    GetEntry(TenantsAB, 0);
  }

  /** `addTenant` with a tenant model and no id stores the model's key under its foreign key. */
  lemma ModelTenantExample(fk: string, key: int)
    ensures AddTenant(Initial, Instance(fk, Int(key)), None) == Ok(Manager(true, [(fk, Int(key))]))
  {
    var empty: Arr<Value> := [];
    assert Keys(empty) == [];
    assert empty + [(fk, Int(key))] == [(fk, Int(key))];
  }
}
