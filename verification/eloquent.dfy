/**
 * The slice of Eloquent the tenancy engine talks to, reduced to values:
 * a query is its list of where clauses, a model is its table, declarations,
 * attributes and named global scopes, and a builder is a model, the global
 * scopes still active on it and its where clauses.
 */
module Eloquent {
  import opened Wrappers
  import opened Php
  import opened PhpArray

  /** The `boolean` entry of a where clause: how it joins the clauses before it. */
  datatype Connective = And | Or

  /** One entry of a query's `wheres` list, by its `type`. */
  datatype Where =
    | Basic(column: string, operator: string, value: Value, boolean: Connective)  // where($c, $op, $v)
    | Raw(sql: string, boolean: Connective)                                        // whereRaw($sql)
    | NullCheck(column: string, boolean: Connective)                               // whereNull($c)
    | In(column: string, values: seq<Value>, boolean: Connective)                  // whereIn($c, $vs)

  type Query = seq<Where>

  /** A model's `$tenantColumns`: a list, or a single column name. */
  datatype Columns = One(column: string) | Many(columns: seq<string>)

  /** `(array) $tenantColumns`: a single name becomes a one-element list. */
  function ColumnList(c: Columns): seq<string> {
    match c
    case One(col) => [col]
    case Many(cols) => cols
  }

  /** What a named global scope adds to every query of its model. */
  datatype Scope =
    | TenantEquals(tenant: string, id: Value)         // where(getQualifiedTenant($tenant), '=', $id)
    | TenantEqualsOrNull(column: string, id: Value)   // where($column, '=', $id)->orWhereNull($column)
    | ScopeObject(className: string)                   // a scope object, registered under its class name

  datatype Model = Model(
    table: string,                          // getTable()
    tenantColumns: Option<Columns>,         // $tenantColumns, None when not set
    morphRelation: Option<Arr<Value>>,      // $morphRelation, None when not set
    attributes: map<string, Value>,
    globalScopes: map<string, Scope>)

  /**
   * `getTenantColumns()` as every model trait writes it: the model's own
   * `$tenantColumns` when set, otherwise the configured default list.
   */
  function DeclaredColumns(m: Model, default: seq<string>): (cs: seq<string>)
    ensures m.tenantColumns.None? ==> cs == default
    ensures m.tenantColumns.Some? && m.tenantColumns.value.One? ==> cs == [m.tenantColumns.value.column]
    ensures m.tenantColumns.Some? && m.tenantColumns.value.Many? ==> cs == m.tenantColumns.value.columns
  {
    match m.tenantColumns
    case None => default
    case Some(c) => ColumnList(c)
  }

  /** The model's morph-relation entry for `k` when it is present and truthy. */
  function MorphEntry(m: Model, k: string): Option<Value> {
    if m.morphRelation.Some? && Get(m.morphRelation.value, k).Some? && Truthy(Get(m.morphRelation.value, k).value)
    then Get(m.morphRelation.value, k) else None
  }

  /**
   * `isset($model->morphRelation) ? array_filter($model->morphRelation) : []`:
   * the model's own morph-relation entries that are truthy.
   */
  function FilteredMorphRelation(m: Model): (r: Arr<Value>)
    ensures m.morphRelation.None? ==> r == []
    ensures forall k :: Get(r, k) == MorphEntry(m, k)
  {
    match m.morphRelation
    case None => []
    case Some(mr) => Filter(mr, v => Truthy(v))
  }

  /** `isset($model->{$column})`: the attribute is present and not null. */
  predicate AttributeIsSet(m: Model, column: string) {
    column in m.attributes && IsSet(m.attributes[column])
  }

  /** `$model->{$column} = $id` for every entry of `tenants`, in order. */
  function Overwrite(attrs: map<string, Value>, tenants: Arr<Value>): (r: map<string, Value>)
    ensures forall k :: Get(tenants, k).Some? ==> k in r && r[k] == Get(tenants, k).value
    ensures forall k :: Get(tenants, k).None? ==> (k in r <==> k in attrs) && (k in attrs ==> r[k] == attrs[k])
    decreases |tenants|
  {
    if |tenants| == 0 then attrs
    else
      HeadNotInTail(tenants);
      var tail: Arr<Value> := tenants[1..];
      Overwrite(attrs[tenants[0].0 := tenants[0].1], tail)
  }

  /** The string `"{$table}.{$column}"`. */
  function Qualified(table: string, column: string): string {
    table + "." + column
  }

  datatype Builder = Builder(model: Model, scopes: map<string, Scope>, wheres: Query)

  /** `$model->newQuery()`: a builder on which every global scope of the model is active. */
  function NewQuery(m: Model): Builder {
    Builder(m, m.globalScopes, [])
  }

  /** `withoutGlobalScopes($names)`: the named scopes are dropped, the others stay. */
  function WithoutGlobalScopes(b: Builder, names: seq<string>): (r: Builder)
    ensures forall n :: n in r.scopes <==> n in b.scopes && n !in names
    ensures forall n :: n in r.scopes ==> r.scopes[n] == b.scopes[n]
    ensures r.model == b.model && r.wheres == b.wheres
  {
    b.(scopes := map n | n in b.scopes && n !in names :: b.scopes[n])
  }

  /** `new static()`: an instance of the same model class, without attributes. */
  function Fresh(m: Model): Model {
    m.(attributes := map[])
  }

  /** A stored row of a model's table: its primary key and its column values. */
  datatype Row = Row(key: Value, columns: map<string, Value>)

  /**
   * Whether a global scope lets a row through. A tenant scope compares the row's
   * column with its id (`where($c, '=', null)` is `whereNull`, so a null id matches a
   * null column); what any other scope admits is given by `other`.
   */
  predicate Admits(s: Scope, row: Row, other: (Scope, Row) -> bool) {
    match s
    case TenantEquals(t, id) => t in row.columns && row.columns[t] == id
    case _ => other(s, row)
  }

  /** A row every active scope of the builder admits. */
  predicate Visible(b: Builder, row: Row, other: (Scope, Row) -> bool) {
    forall n :: n in b.scopes ==> Admits(b.scopes[n], row, other)
  }

  /**
   * `find($id)` with a scalar id on a builder without wheres of its own: the first stored
   * row with that key that the builder's scopes let through, or null.
   */
  function Find(b: Builder, rows: seq<Row>, id: Value, other: (Scope, Row) -> bool): (r: Option<Row>)
    ensures r.Some? ==> r.value in rows && r.value.key == id && Visible(b, r.value, other)
    ensures r.None? <==> forall i :: 0 <= i < |rows| ==> !(rows[i].key == id && Visible(b, rows[i], other))
  {
    if |rows| == 0 then None
    else if rows[0].key == id && Visible(b, rows[0], other) then Some(rows[0])
    else
      var r := Find(b, rows[1..], id, other);
      assert forall i :: 1 <= i < |rows| ==> rows[i] == rows[1..][i - 1];
      r
  }

  /** A builder whose scopes are some of another's sees every row the other sees. */
  lemma FewerScopesSeeMore(b: Builder, b2: Builder, rows: seq<Row>, id: Value, other: (Scope, Row) -> bool)
    requires forall n :: n in b2.scopes ==> n in b.scopes && b2.scopes[n] == b.scopes[n]
    ensures Find(b, rows, id, other).Some? ==> Find(b2, rows, id, other).Some?
  {
    var r := Find(b, rows, id, other);
    if r.Some? {
      var i :| 0 <= i < |rows| && rows[i] == r.value;
      assert rows[i].key == id && Visible(b2, rows[i], other);
    }
  }
}
