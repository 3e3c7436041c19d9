# Landlord tenant scoping, modelled in Dafny

This project models the tenant-scoping engine of Landlord, a Laravel package for row-level multi-tenancy. The engine keeps a registry of tenants. Each entry maps a tenant column, such as `company_id`, to a tenant id. An `enabled` flag switches the scoping on and off. From this registry the engine builds the query constraints and creation-time attribute stamps that confine every Eloquent model to the current tenants.

The repository holds several historical revisions of the engine, and they behave differently. Each revision is its own module:

| module | revision |
|---|---|
| `TenantManager` | `src/TenantManager.php`, the newest manager. Its registry is a Collection, it rejects null ids, and it registers one global scope per tenant column. |
| `BelongsToTenants`, `BelongsToTenantsStatic` | `src/BelongsToTenants.php`, the model trait of the newest revision. The static methods `allTenants` and `findOrFail` go through the manager. |
| `BelongsToOneTenant`, `BelongsToManyTenants` | the two scope objects under `src/Scopes/`. |
| `AuraTenantScope`, `AuraTenantScopedModel`, `AuraTenantScopedModelStatic` | the oldest revision: `src/AuraIsHere/LaravelMultiTenant/TenantScope.php` and its model trait. Its tenant selection is strict, and its constraints are raw SQL clauses that `remove` can find again. Its `creating` throws where the later revisions skip a column. |
| `Landlord` | `src/Landlord.php`. Its selection is permissive, and table qualification depends on configuration. |
| `TenantScope` | `src/TenantScope.php`. It has the same shape as `Landlord`, but columns are always table-qualified. |

Shared modules:
- `ScopeContext` is the tenant map the three older scope classes share: add, remove, has, get-id and enable/disable are the same in all three. It also holds both selections: the strict one only the AuraIsHere class uses, and the permissive one `Landlord` and `src/TenantScope.php` use. Its `creating` is the permissive one; the AuraIsHere class has its own strict `creating` in `AuraTenantScope`.
- `Php` models PHP values (null, int, string), `isset`, truthiness and string interpolation. Integers render in decimal, with a proved parse round trip.
- `PhpArray` models insertion-ordered PHP arrays with string keys:
  - `$a[$k] = $v` and `unset`;
  - `Collection::only` and `array_filter`;
  - the union `+`, where the left side wins;
  - `array_merge`, where the right side wins.
- `Eloquent` is an abstract stand-in for the parts of Eloquent the engine touches:
  - where clauses, with their `and`/`or` connective;
  - a query as a sequence of wheres;
  - a model's table, declared tenant columns, attributes and named global scopes;
  - a builder's active scopes;
  - stored rows and `find`, for the lookup `findOrFail` performs.
- `Wrappers` defines `Option` and `Result`. A thrown exception is an `Err`.

Everything is a pure function on immutable values. A PHP method that mutates `$this` or a model becomes a function that returns the new value. In the newest trait, the database is a sequence of rows that the builder's scopes filter. In the AuraIsHere trait, the scoped lookup's answer is an `Option` the caller supplies, because its constraints are raw SQL text.

Configuration values are constants taken from the shipped config files:
- `landlord.default_tenant_columns` is `['company_id']` (`config/landlord.php:21`).
- `query_with_table_name` is `true` (`config/landlord.php:37`).

`landlord.default_morph_relation` appears in no shipped config file, so it is a parameter. The AuraIsHere trait reads `multi-tenant.default_tenant_columns`, which no shipped config file defines either, so its default columns are a parameter `d`. The default columns that `Landlord` and `TenantScope` read through their model traits are a parameter too.

## Model

| member | source | states |
|---|---|---|
| TenantManager.Enable | src/TenantManager.php:36-39 | Scoping is on afterwards, and the registered tenants are untouched. |
| TenantManager.Disable | src/TenantManager.php:46-49 | Scoping is off afterwards, and the registered tenants are untouched. |
| TenantManager.TenantKey | src/TenantManager.php:202-215 | A column name is its own key and a tenant model stands for its foreign-key name. Anything else fails with `TenantColumnUnknownException`, and only that fails. |
| TenantManager.ModelAndColumnAgree | src/TenantManager.php:202-215 | A tenant model and its foreign-key name are interchangeable: `hasTenant`, `getTenantId` and `removeTenant` give the same answers for both. |
| TenantManager.AddTenant | src/TenantManager.php:59-70 | It fails with `TenantNullIdException` exactly when the effective id is null. The effective id is the model's key when a model is passed alone. The null check comes before key resolution. Otherwise an unsupported key fails with `TenantColumnUnknownException`. On success the key maps to the id, every other key keeps its entry, and the `enabled` flag is not changed. |
| TenantManager.AddThenGetTenantId | src/TenantManager.php:59-70 | Last write wins. After a successful add, `getTenantId` returns the new id for that key and the old answer for every other key. |
| TenantManager.NoNullIdsKept | src/TenantManager.php:65-67 | A fresh manager holds no null id. Add, remove, enable and disable keep it that way. |
| TenantManager.RemoveTenant | src/TenantManager.php:77-80 | It fails only for an unsupported key. Otherwise that key is gone, every other key keeps its entry, and the flag is kept. |
| TenantManager.RemoveThenHasTenant | src/TenantManager.php:77-118 | After `removeTenant`, `hasTenant` is false and `getTenantId` throws for that key. |
| TenantManager.HasTenant | src/TenantManager.php:89-92 | It is true exactly when the key is in the collection. An unsupported key throws. |
| TenantManager.GetTenantId | src/TenantManager.php:109-118 | It succeeds exactly when the key is supported and present, and then returns the stored id. Otherwise it throws `TenantColumnUnknownException`. |
| TenantManager.ModelTenants | src/TenantManager.php:225-228 | The registered tenants restricted to the model's declared columns. An undeclared or unregistered column is absent. |
| TenantManager.ApplyTenantScopes | src/TenantManager.php:125-136 | When disabled, the model is unchanged. When enabled, each declared and registered column gets the global scope `column = id` under the column's name. Every other scope and every other part of the model is unchanged. |
| TenantManager.ApplyTenantScopesIdempotent | src/TenantManager.php:125-136 | Scopes are keyed by column, so applying a second time replaces them and never duplicates them. |
| TenantManager.DefaultModelScopedByCompany | src/BelongsToTenants.php:55-59 | An enabled manager gives a model without `$tenantColumns` the scope `company_id = id` when `company_id` is registered, and no scope for any other registered tenant. |
| TenantManager.NewModel | src/TenantManager.php:143-154 | When disabled, the model is unchanged. When enabled, a declared and registered column whose attribute is not set receives the tenant id. Set attributes and all other attributes keep their values. |
| TenantManager.NewModelKeepsExplicitValue | src/TenantManager.php:149-153 | An attribute the caller already set survives `newModel`. |
| TenantManager.IncludeNull | src/TenantManager.php:163-179 | When disabled, the model is unchanged. When enabled, each declared and registered column's scope becomes `table.column = id OR table.column IS NULL`, under the same name. Everything else is unchanged. |
| TenantManager.IncludeNullReplacesTenantScopes | src/TenantManager.php:163-179 | `includeNull` after `applyTenantScopes` gives the same model as `includeNull` alone, so it replaces the equality scopes. |
| TenantManager.NewQueryWithoutTenants | src/TenantManager.php:188-191 | The query keeps exactly the model's global scopes whose names are not registered tenant keys, declared by the model or not. |
| TenantManager.EscapeUndoesApply | src/TenantManager.php:125-191 | The escape query after `applyTenantScopes` has the same active scopes as the escape query without it. |
| TenantManager.AddSecondTenantExample | tests/LandlordTest.php:19-21 | Adding `tenant_b_id => 2` after `tenant_a_id => 1` gives `['tenant_a_id' => 1, 'tenant_b_id' => 2]`, in that order. |
| TenantManager.RemoveTenantExample | tests/LandlordTest.php:23-25 | Removing `tenant_a_id` leaves `['tenant_b_id' => 2]`. |
| TenantManager.HasTenantExample | tests/LandlordTest.php:27-29 | After that removal, `hasTenant` holds for `tenant_b_id` and not for `tenant_a_id`. |
| TenantManager.ModelTenantExample | tests/LandlordTest.php:44-48 | Adding a tenant model alone stores its key under its foreign-key name. |
| TenantManager.ApplyTenantScopesExample | tests/LandlordTest.php:63-80 | A model declaring only `tenant_a_id` gets a scope named `tenant_a_id` and none named `tenant_b_id`. |
| TenantManager.NewModelExample | tests/LandlordTest.php:97-114 | Such a new model gets `tenant_a_id = 1`, and `tenant_b_id` stays unset. |
| TenantManager.GetTenantIdExample | tests/LandlordTest.php:116-125 | `getTenantId('tenant_a_id')` returns 1. |
| BelongsToTenants.TenantColumns | src/BelongsToTenants.php:55-59 | The model's `$tenantColumns` when set, otherwise `['company_id']`. |
| BelongsToTenants.MorphRelationConfiguration | src/BelongsToTenants.php:106-112 | The configured keys keep their configured values and their order. A key the configuration lacks takes the model's entry only when that entry is truthy. |
| BelongsToTenantsStatic.AllTenants | src/BelongsToTenants.php:121-124 | A query on a fresh instance, with no attributes and the same table. It has no scope named after a registered tenant, and every other global scope is kept. |
| BelongsToTenantsStatic.AllTenantsAfterBoot | src/BelongsToTenants.php:121-124 | The scopes the manager registers on the model class do not change what `allTenants` keeps. |
| BelongsToTenantsStatic.FindOrFail | src/BelongsToTenants.php:138-150 | It succeeds exactly when a stored row with the id passes every global scope of the model, and returns such a row. The tenant-specific exception names the called class and carries `No query results for model [X] when scoped by tenant.`. |
| BelongsToTenantsStatic.TenantMissIffRowElsewhere | src/BelongsToTenants.php:142-148 | The tenant-specific exception is thrown exactly when a row with the id passes the scopes `allTenants` keeps while every such row fails the scoped query. The original exception is rethrown exactly when no row with the id passes even `allTenants`. |
| BelongsToTenantsStatic.ScopedHitIsUnscopedHit | src/BelongsToTenants.php:141-144 | `allTenants` keeps a subset of the scoped query's scopes, so a row the scoped lookup finds, the unscoped one finds too. |
| BelongsToTenantsStatic.HiddenByTenantScope | src/BelongsToTenants.php:143-145 | A row that `allTenants` sees but the scoped query does not fails the scope of some registered tenant. |
| Eloquent.Find | src/BelongsToTenants.php:141-144 | The answer is a stored row with the id that every active scope admits; null exactly when there is none. |
| Eloquent.FewerScopesSeeMore | src/BelongsToTenants.php:144 | A builder with a subset of another's scopes finds a row whenever the other does. |
| BelongsToOneTenant.Apply | src/Scopes/BelongsToOneTenant.php:28-31 | Exactly one and-joined where is appended, and the earlier wheres are kept. It is `=` with the constructor's id on the interpolated `table.column`, or `IS NULL` when the id is null, since Eloquent turns `where(c, '=', null)` into `whereNull`. A null column interpolates as empty. |
| BelongsToOneTenant.DefaultFiltersOnNull | src/Scopes/BelongsToOneTenant.php:15-31 | The scope built without arguments adds `table. IS NULL`. |
| BelongsToOneTenant.ApplyReadsOnlyTable | src/Scopes/BelongsToOneTenant.php:28-31 | The constraint depends on the model only through its table. No flag or registry is consulted. |
| BelongsToOneTenant.DistinctColumnsDistinctWheres | src/Scopes/BelongsToOneTenant.php:30 | Scope objects with different string columns add different constraints. |
| BelongsToManyTenants.MorphRelation | src/Scopes/BelongsToManyTenants.php:28-32 | The model's truthy entries override the configuration. Every other key keeps its configured value. |
| BelongsToManyTenants.NoOwnSettingsGivesDefaults | src/Scopes/BelongsToManyTenants.php:30-31 | An absent or empty `morphRelation` leaves exactly the configured settings. |
| BelongsToManyTenants.FalsyEntryKeepsDefault | src/Scopes/BelongsToManyTenants.php:30-31 | A falsy model entry leaves the configured value in place. |
| BelongsToManyTenants.Apply | src/Scopes/BelongsToManyTenants.php:26-39 | The relation is to `App\Tenant`, with the merged `table` setting passed as the morph name. The pivot filter is on `table.tenant_id_column` from the merged settings. Its ids are every id in the manager, in the manager's order. |
| BelongsToManyTenants.ApplyIgnoresTenantColumns | src/Scopes/BelongsToManyTenants.php:35-38 | The pivot filter is not restricted to the model's declared tenant columns. |
| BelongsToManyTenants.UnionAndMergeDisagree | src/Scopes/BelongsToManyTenants.php:28-32 | When both the configuration and the model set a key, the trait's union keeps the configured value and the scope's merge takes the model's. |
| BelongsToManyTenants.UnionAndMergeAgree | src/Scopes/BelongsToManyTenants.php:28-32 | When only one side sets a key, both combinations give the same value. |
| ScopeContext.Enable | src/AuraIsHere/LaravelMultiTenant/TenantScope.php:205-208 | Scoping is on afterwards, and the tenants are untouched. |
| ScopeContext.Disable | src/AuraIsHere/LaravelMultiTenant/TenantScope.php:200-203 | Scoping is off afterwards, and the tenants are untouched. |
| ScopeContext.DisableEnableKeepsTenants | src/Landlord.php:165-178 | Disabling and re-enabling restores the context with the same tenant map. |
| ScopeContext.AddTenant | src/AuraIsHere/LaravelMultiTenant/TenantScope.php:36-41 | Scoping is re-enabled. The column maps to the new id and every other column keeps its entry, so the last write wins. `src/Landlord.php:43-48` and `src/TenantScope.php:43-48` are identical. |
| ScopeContext.HasTenant | src/AuraIsHere/LaravelMultiTenant/TenantScope.php:72-75 | True exactly when some entry of the map has the column and a non-null id. `src/TenantScope.php:75-78` and `src/Landlord.php:75-78` are identical. |
| ScopeContext.RemoveTenant | src/AuraIsHere/LaravelMultiTenant/TenantScope.php:50-63 | It answers true exactly when `hasTenant` held, and then only that column is removed. When it answers false, the context is unchanged. `src/TenantScope.php:57-66` and `src/Landlord.php:57-66` are identical. |
| ScopeContext.GetTenantId | src/AuraIsHere/LaravelMultiTenant/TenantScope.php:173-183 | It succeeds exactly when `hasTenant` holds, and returns the stored non-null id. Otherwise the error names the column. `src/TenantScope.php:143-152` and `src/Landlord.php:149-158` do the same. |
| ScopeContext.NullIdIsInvisible | src/Landlord.php:57-78 | A column added with a null id is stored, yet `hasTenant` is false. `removeTenant` answers false and keeps it, and `getTenantId` fails. |
| ScopeContext.Present | src/Landlord.php:126-138 | The reference list of declared columns that have a tenant. |
| ScopeContext.PermissiveModelTenants | src/Landlord.php:126-138 | The permissive selection never fails. A column is in it exactly when it is declared and has a tenant, and then it carries the stored id. |
| ScopeContext.PermissiveOrder | src/TenantScope.php:122-134 | With distinct declared columns, the selection lists the present columns in declared order, each with its id. |
| ScopeContext.StrictModelTenants | src/AuraIsHere/LaravelMultiTenant/TenantScope.php:150-164 | It succeeds exactly when every declared column has a tenant, and then holds exactly the declared columns with their ids. A failure names a declared column that has no tenant. |
| ScopeContext.StrictOrder | src/AuraIsHere/LaravelMultiTenant/TenantScope.php:150-164 | With distinct declared columns, a successful strict selection lists exactly the declared columns, in order, with their ids. |
| ScopeContext.StrictAgreesWithPermissive | src/AuraIsHere/LaravelMultiTenant/TenantScope.php:150-164 | Where the strict selection succeeds, it equals the permissive one. |
| ScopeContext.SelectionSeesOnlyTenants | src/AuraIsHere/LaravelMultiTenant/TenantScope.php:150-164 | Both selections depend on the tenant map only, not on the `enabled` flag. |
| ScopeContext.Creating | src/Landlord.php:104-115 | If the model lost this scope, it is returned unchanged. Otherwise each declared column with a tenant is overwritten with the id. Every other attribute and every other part of the model stays the same. |
| ScopeContext.CreatingSingleColumn | src/TenantScope.php:100-111 | With the scope registered under its class and a single declared column that has a tenant, `creating` sets exactly that attribute to the id and changes nothing else. |
| ScopeContext.CreatingIgnoresEnabled | src/TenantScope.php:100-111 | `creating` stamps the same attributes whether scoping is enabled or not. |
| AuraTenantScope.ModelTenants | src/AuraIsHere/LaravelMultiTenant/TenantScope.php:150-164 | The strict selection over the model's declared columns, with the configured default as a parameter. It fails exactly when a declared column has no tenant, and the failure names such a column. |
| AuraTenantScope.Apply | src/AuraIsHere/LaravelMultiTenant/TenantScope.php:84-95 | When disabled, the query is unchanged. When enabled, it fails exactly when a declared column has no tenant. Otherwise the old wheres are kept as a prefix, and with distinct columns exactly one and-joined raw clause per declared column follows, in declared order, with the trait's clause text. |
| AuraTenantScope.FirstClause | src/AuraIsHere/LaravelMultiTenant/TenantScope.php:111-124 | The position of the first raw where carrying this tenant's clause text. No earlier where carries it. |
| AuraTenantScope.RemoveFirst | src/AuraIsHere/LaravelMultiTenant/TenantScope.php:111-124 | Only the first matching where is removed, and the rest keep their relative order. Without a match, nothing changes. |
| AuraTenantScope.RemoveFirstKeepsOthers | src/AuraIsHere/LaravelMultiTenant/TenantScope.php:111-124 | The bounded removal for one listed clause leaves every where that carries no listed clause, in order. |
| AuraTenantScope.AnyClauseIsSomeConstraint | src/AuraIsHere/LaravelMultiTenant/TenantScope.php:111-124 | A where carries one of the selected tenants' clause texts exactly when `isTenantConstraint` holds for it and one of those tenants. |
| AuraTenantScope.ConstraintIsEngineClause | src/AuraIsHere/LaravelMultiTenant/TenantScope.php:195-198 | `isTenantConstraint` holds exactly when the where is a raw where whose text is the trait's clause for that column and id, whatever its connective, so an or-joined copy counts too. |
| AuraTenantScope.RemoveAll | src/AuraIsHere/LaravelMultiTenant/TenantScope.php:109-126 | For every SQL text, the number of raw wheres carrying it drops by the number of times the clauses list it, or to zero when there were fewer: each listed clause takes out one present copy. The result is a sub-multiset with at most one where fewer per clause, and every where that is not raw keeps its multiplicity. |
| AuraTenantScope.RemoveFirstCounts | src/AuraIsHere/LaravelMultiTenant/TenantScope.php:111-124 | The bounded removal for a clause takes out one raw where carrying it when there is one, and no where carrying any other text. |
| AuraTenantScope.RemoveAllKeepsOthers | src/AuraIsHere/LaravelMultiTenant/TenantScope.php:109-126 | Every where that carries none of the tenant clauses survives the outer loop, in its original order. |
| AuraTenantScope.Remove | src/AuraIsHere/LaravelMultiTenant/TenantScope.php:104-128 | It fails exactly when the strict selection fails. Otherwise, for each selected tenant, one present raw where carrying its clause is removed (the first, by `RemoveFirst`), so each SQL text loses as many copies as selected tenants have it as their clause, down to zero. At most one where per declared column disappears and the result is a sub-multiset. Every where that is not a selected tenant's constraint survives in its original order and with its multiplicity. |
| AuraTenantScope.ApplyThenRemove | src/AuraIsHere/LaravelMultiTenant/TenantScope.php:84-128 | `remove` after `apply` restores the original wheres as a multiset, when their raw clauses are and-joined. |
| AuraTenantScope.ApplyRemoveApply | src/AuraIsHere/LaravelMultiTenant/TenantScope.php:84-128 | Applying again after `apply` and `remove` gives the same multiset as the first `apply`. |
| AuraTenantScope.RemoveIgnoresEnabled | src/AuraIsHere/LaravelMultiTenant/TenantScope.php:104-128 | `remove` does not look at the `enabled` flag. |
| AuraTenantScope.OtherTenantNotAConstraint | src/AuraIsHere/LaravelMultiTenant/TenantScope.php:195-198 | Another id's clause on the same column is never taken for this tenant's constraint. |
| AuraTenantScope.RemoveExample | tests/TenantScopeTest.php:47-66 | With `column => 1` on table `table`, `[Null foo, raw "table.column = '1'"]` becomes `[Null foo]`. |
| AuraTenantScope.DuplicateUserClausesKept | src/AuraIsHere/LaravelMultiTenant/TenantScope.php:119-122 | For any model whose only declared column has a tenant: when the user wrote the tenant clause twice, `apply` adds a third and `remove` takes out only one. |
| AuraTenantScope.Creating | src/AuraIsHere/LaravelMultiTenant/TenantScope.php:130-140 | If the model lost this scope, it is returned unchanged. Otherwise it fails when a declared column has no tenant; else every declared column is overwritten with its id and nothing else changes. |
| AuraTenantScope.CreatingAgreesWithScopeContext | src/AuraIsHere/LaravelMultiTenant/TenantScope.php:130-140 | When it succeeds, it stamps the same model as the permissive `creating` of the later revisions. |
| AuraTenantScope.ScalarColumnIsOneElementList | src/AuraIsHere/LaravelMultiTenant/TenantScope.php:152-154 | A single `$tenantColumns` name selects like the one-element list, and succeeds exactly when that column has a tenant. |
| AuraTenantScope.UnconfiguredDefaultFails | src/AuraIsHere/LaravelMultiTenant/Traits/TenantScopedModelTrait.php:49-52 | With the default left unconfigured, a model without `$tenantColumns` selects the single column `""` and fails unless a tenant is registered under it. |
| Eloquent.DeclaredColumns | src/AuraIsHere/LaravelMultiTenant/Traits/TenantScopedModelTrait.php:49-52 | The model's `$tenantColumns` when set, a single name as one column, otherwise the configured default. |
| AuraTenantScope.SingleColumnSelection | src/AuraIsHere/LaravelMultiTenant/TenantScope.php:150-164 | When the only declared column has a tenant, the selection is exactly that column with its id. |
| AuraTenantScope.SelectionBounded | src/AuraIsHere/LaravelMultiTenant/TenantScope.php:150-164 | The selection has no more entries than there are declared columns. |
| AuraTenantScopedModel.WhereClauseDeterminesId | src/AuraIsHere/LaravelMultiTenant/Traits/TenantScopedModelTrait.php:63-66 | For one model and column, two clauses are equal exactly when the ids interpolate to the same text. |
| AuraTenantScopedModel.IntClausesDiffer | src/AuraIsHere/LaravelMultiTenant/Traits/TenantScopedModelTrait.php:65 | Different integer ids give different clauses. |
| AuraTenantScopedModel.WhereClauseExample | tests/TenantScopedModelTraitTest.php:24-32 | Table `table`, column `column` and id 1 give `table.column = '1'`. |
| AuraTenantScopedModel.TenantWhereClauseLayout | src/AuraIsHere/LaravelMultiTenant/Traits/TenantScopedModelTrait.php:63-66 | The text is the qualified column, then ` = '`, then the interpolated id, then a closing quote, with no escaping. |
| AuraTenantScopedModelStatic.AllTenants | src/AuraIsHere/LaravelMultiTenant/Traits/TenantScopedModelTrait.php:39-42 | Building the query runs `apply` and then `remove`, so it fails exactly when a declared column has no tenant, even on a disabled scope. Otherwise no where is left. |
| AuraTenantScopedModelStatic.AllTenantsIgnoresEnabled | src/AuraIsHere/LaravelMultiTenant/Traits/TenantScopedModelTrait.php:39-42 | `allTenants` gives the same answer whether the scope is enabled or not. |
| AuraTenantScopedModelStatic.FindOrFail | src/AuraIsHere/LaravelMultiTenant/Traits/TenantScopedModelTrait.php:77-84 | The scope's `TenantColumnUnknownException` escapes exactly when building the scoped query fails. Otherwise a hit is returned, and any miss throws `TenantModelNotFoundException` naming the called class with `No query results for model [X] when scoped by tenant.`. |
| AuraTenantScopedModelStatic.FindOrFailColumnUnknown | src/AuraIsHere/LaravelMultiTenant/Traits/TenantScopedModelTrait.php:77-84 | The scope's exception escapes only from an enabled scope, and then `allTenants` fails on the same column. |
| TenantScope.Apply | src/TenantScope.php:86-95 | When disabled, the query is unchanged. Otherwise the old wheres are a prefix. With distinct columns, exactly one where per present declared column follows, in declared order. |
| TenantScope.CreatingExample | tests/TenantScopeTest.php:68-82 | A model that still has this class's scope, declaring `column`, gets `column = 1` from the tenant `column => 1`. |
| TenantScope.NoTenantNoFilter | src/TenantScope.php:86-95 | A model none of whose declared columns has a tenant is not filtered. |
| Landlord.Apply | src/Landlord.php:86-99 | When disabled, the query is unchanged. Otherwise the old wheres are a prefix, followed by one where per present declared column, in declared order. |
| Landlord.CreatingExample | src/Landlord.php:104-115 | A model that still has the scope registered under Landlord's class, declaring `column`, gets `column = 1` from the tenant `column => 1`. |
| Landlord.ShippedConfigMatchesTenantScope | config/landlord.php:37 | With the shipped `query_with_table_name = true`, `Landlord` adds exactly what `src/TenantScope.php` adds. |
| Php.Render | src/AuraIsHere/LaravelMultiTenant/Traits/TenantScopedModelTrait.php:65 | Interpolation: a string as itself, null as empty, an integer in decimal. |
| Php.DecimalRoundTrip | src/AuraIsHere/LaravelMultiTenant/Traits/TenantScopedModelTrait.php:65 | Reading back the decimal text of a natural number gives the number. |
| Php.RenderInjectiveOnInts | src/AuraIsHere/LaravelMultiTenant/Traits/TenantScopedModelTrait.php:65 | Different integers interpolate differently. |
| PhpArray.Put | src/TenantManager.php:69 | The key maps to the value and every other key keeps its entry. An existing key keeps its position, and a new key goes last. |
| PhpArray.Unset | src/TenantManager.php:79 | The key is gone and every other key keeps its entry and its order. An absent key leaves the array unchanged. |
| PhpArray.Only | src/TenantManager.php:227 | Exactly the entries whose key is listed. |
| PhpArray.Union | src/BelongsToTenants.php:109 | The left side's keys win and keep their order in front. Keys only on the right are added. |
| PhpArray.Merge | src/Scopes/BelongsToManyTenants.php:28-32 | The right side's keys win. Keys only on the left keep their values. |
| Eloquent.FilteredMorphRelation | src/BelongsToTenants.php:109 | The model's truthy morph-relation entries, or none when it has no such property. |

## Left out

- Eloquent itself is out of scope: the query builder, `addGlobalScope`, `withoutGlobalScopes`, `morphToMany`, `wherePivotIn`, `mergeBindings` and SQL execution. Queries are sequences of abstract wheres and global scopes are a map by name. `find` is modelled only as a filter of stored rows by the builder's scopes, and raw SQL text is never evaluated. `newQueryWithoutScope` is modelled only as the `apply` then `remove` it runs on the tenant scope. `BelongsToManyTenants::apply` only merges the bindings of the relation query it builds, so the model stops at the relation and pivot filter it would merge.
- `getQualifiedTenant` is not defined in any file of the repository. The scope `TenantManager` registers records the unqualified column and the id.
- `setType`, `isRelatedByMany`, `newModelRelatedToManyTenants` and `applyTenantScopesToDeferredModels` are not defined in any file of the repository. So the trait's boot, its `created`/`updated` listeners and the test at tests/LandlordTest.php:82-95 are not modelled.
- `BelongsToTenants::tenants()` and `getTenantModel`/`getTenantRelationsModel` are left out. They need `isRelatedByMany` and `class_exists`, which are runtime reflection.
- `BelongsToOneTenant::__construct` is the `OneTenant` datatype constructor. It stores both arguments unchanged by construction, and `BelongsToOneTenant.Default` is the no-argument form. No lemma states this.
- `getTenants()` in every revision just exposes the map. It is the `tenants` field of the modelled state.
- `src/AuraIsHere/LaravelMultiTenant/ScopedByTenant.php` and `TenantObserver.php` are left out. They call `getTenantId()` statically with no argument, which matches no scope class in the repository.
- `src/Traits/TenantScopedModelTrait.php` and `src/BelongsToTenant.php` are left out because they repeat the logic of the modelled AuraIsHere trait. So are the service providers, facades and exception classes. Their message strings appear in the `findOrFail` models.
- Only null, integers and strings are modelled as tenant ids. Floats, booleans and arrays are left out because their interpolation is PHP-specific.
- Integer-like string keys are left out. PHP turns them into integer keys, and `array_merge` renumbers them. The tenant column names in the repository are never numeric.
- The raw clause is plain string concatenation. SQL quoting and escaping are not modelled, and no injection safety is claimed.
- The per-request singleton, its sharing across models, and concurrency are left out.
- `AuraTenantScope.ApplyThenRemove`: the round trip is stated only for queries whose raw wheres are all and-joined. `isTenantConstraint` ignores the connective, so `remove` may take out a user's or-joined copy of the clause instead of the one `apply` added. It is also stated only for an enabled scope: a disabled `apply` adds nothing, while `remove` still strips a matching clause the user wrote.
- `AuraTenantScope.ApplyRemoveApply`: stated only for and-joined raw wheres and an enabled scope, for the same two reasons as `ApplyThenRemove`.
- `AuraTenantScope.Remove`, `AuraTenantScope.RemoveAll`, `AuraTenantScope.RemoveAllKeepsOthers`: the order of the surviving tenant-constraint clauses is not stated, because a user's identical clause may be removed in place of the engine's.
- `AuraTenantScopedModelStatic.AllTenants`, `AuraTenantScopedModelStatic.FindOrFail`: the wheres of the model's other global scopes are not modelled. Only the tenant scope's wheres are.
- `Eloquent.Admits`: a tenant scope compares the stored column with the id as equal values. SQL `=` would also match the string `'1'` with the integer `1`, and that coercion is not modelled. It affects only `Eloquent.Find` and the lemmas built on it, not the `findOrFail` decision.
- `BelongsToTenantsStatic.FindOrFail`: `$id` is a scalar. An array id makes `find` return a Collection, which is never null, and is not modelled. What global scopes other than the tenant scopes admit is a parameter.
- `AuraTenantScope.Apply`, `TenantScope.Apply`, `Landlord.Apply`: the exact order of the added wheres is stated only when the declared columns are distinct. With a repeated column, PHP's keyed array collapses the repeats, and only the prefix and per-key facts are stated.

## Source and description differences

- Tenant ids differ between revisions, and the model follows each file's code. Only `TenantManager` rejects null ids. In the three older scope classes, a null id is stored but `isset` hides it (`ScopeContext.NullIdIsInvisible`).
- The selection differs between revisions as well. It is strict only in the AuraIsHere `TenantScope`, which throws for a declared column without a tenant. It is permissive in `Landlord`, `src/TenantScope.php` and `TenantManager`.
- The two morph-relation combinations disagree when the configuration and the model both set a key. The trait uses the array union and the pivot scope uses `array_merge`, and both are modelled as written (`BelongsToManyTenants.UnionAndMergeDisagree`).
- The AuraIsHere trait reads `multi-tenant.default_tenant_columns`, but no shipped config file defines that key: `src/config/config.php:21` defines `tenant_column` and `config/laravel-mutli-tenant.php:21` lives under another name. The default is therefore a parameter of the AuraIsHere modules. As shipped it is null, which the selection wraps into the single column `""`, so every model without `$tenantColumns` fails (`AuraTenantScope.UnconfiguredDefaultFails`).
- `landlord.default_morph_relation` is defined in no shipped config file, so as shipped `config()` returns null for it. Then `$morphRelation +=` at `src/BelongsToTenants.php:109` adds an array to null, which PHP rejects with an unsupported-operand error. `array_merge(null, …)` at `src/Scopes/BelongsToManyTenants.php:28-32` does not return an array either. So both morph-relation operations fail unless the application configures the key. The model takes the setting as an array parameter and describes the configured behaviour.
- `TenantManager::includeNull` builds a `withoutGlobalScopes` query and throws it away. The model has no effect for that line.
